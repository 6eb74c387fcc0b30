/**
 * `decodeLabel` (src/utils/utils.ts): turns a kebab-case route segment such
 * as "split-text" into the title "Split Text" shown in the gallery.
 */
module Labels {
  import opened JsStrings

  /** `word.charAt(0).toUpperCase() + word.slice(1)`. */
  function Capitalize(w: string): (r: string)
    ensures |r| == |w|
    ensures |w| > 0 ==> r[0] == UpperChar(w[0]) && r[1..] == w[1..]
  {
    if w == [] then [] else [UpperChar(w[0])] + w[1..]
  }

  /** `words.map(word => ...)` with `Capitalize`. */
  function CapitalizeAll(ws: seq<string>): (r: seq<string>)
    ensures |r| == |ws|
    ensures forall k :: 0 <= k < |ws| ==> r[k] == Capitalize(ws[k])
  {
    if ws == [] then [] else [Capitalize(ws[0])] + CapitalizeAll(ws[1..])
  }


  /**
   * What the title holds at position `i` of the label: a space for a hyphen,
   * the upper-cased character at the start of a segment, and otherwise the
   * character itself.
   */
  function TitleAt(s: string, i: nat): char
    requires i < |s|
  {
    if s[i] == '-' then ' '
    else if i == 0 || s[i - 1] == '-' then UpperChar(s[i])
    else s[i]
  }

  /** The title of a label, position by position. */
  function TitleCase(s: string): (r: string)
    ensures |r| == |s|
    ensures forall i :: 0 <= i < |s| ==> r[i] == TitleAt(s, i)
  {
    seq(|s|, i requires 0 <= i < |s| => TitleAt(s, i))
  }

  /**
   * Joining the capitalized words with spaces is the title of joining the
   * words themselves with hyphens.
   */
  lemma {:induction false} JoinCapitalized(ws: seq<string>)
    requires |ws| >= 1
    requires forall k :: 0 <= k < |ws| ==> '-' !in ws[k]
    ensures Join(CapitalizeAll(ws), ' ') == TitleCase(Join(ws, '-'))
  {
    var out, inp := Join(CapitalizeAll(ws), ' '), Join(ws, '-');
    var w := ws[0];
    if |ws| == 1 {
      assert out == Capitalize(w) && inp == w;
      forall i | 0 <= i < |inp| ensures out[i] == TitleAt(inp, i) {
        assert inp[i] in w;
        if i > 0 { assert inp[i - 1] in w; }
      }
    } else {
      var out', inp' := Join(CapitalizeAll(ws[1..]), ' '), Join(ws[1..], '-');
      JoinCapitalized(ws[1..]);
      assert CapitalizeAll(ws)[1..] == CapitalizeAll(ws[1..]);
      assert out == Capitalize(w) + [' '] + out';
      assert inp == w + ['-'] + inp';
      forall i | 0 <= i < |inp| ensures out[i] == TitleAt(inp, i) {
        if i < |w| {
          assert inp[i] == w[i] && inp[i] in w;
          if i > 0 { assert inp[i - 1] == w[i - 1] && inp[i - 1] in w; }
        } else if i > |w| {
          var k := i - |w| - 1;
          assert inp[i] == inp'[k] && out[i] == out'[k];
          assert out'[k] == TitleAt(inp', k);
          if k > 0 { assert inp[i - 1] == inp'[k - 1]; }
        }
      }
    }
  }

  /**
   * `decodeLabel(raw)`: split at `-`, capitalize every piece, join with a
   * space. The result is the label with every hyphen turned into a space and
   * the first character of every segment upper-cased; nothing else changes.
   */
  function DecodeLabel(raw: string): (r: string)
    ensures r == TitleCase(raw)
  {
    if raw == "" then ""
    else
      var ws := Split(raw, IsHyphen);
      JoinSplit(raw, '-', IsHyphen);
      JoinCapitalized(ws);
      Join(CapitalizeAll(ws), ' ')
  }

  /** The title has the label's length, no hyphen, and a space exactly where the label had a hyphen or a space. */
  lemma DecodeLabelShape(raw: string)
    ensures |DecodeLabel(raw)| == |raw|
    ensures '-' !in DecodeLabel(raw)
    ensures forall i :: 0 <= i < |raw| ==> (DecodeLabel(raw)[i] == ' ' <==> raw[i] == '-' || raw[i] == ' ')
  {
  }

  /** Only the first character of a segment can change; the rest is copied. */
  lemma DecodeLabelKeepsInnerCharacters(raw: string, i: nat)
    requires 0 < i < |raw| && raw[i] != '-' && raw[i - 1] != '-'
    ensures |DecodeLabel(raw)| == |raw| && DecodeLabel(raw)[i] == raw[i]
  {
  }

  /** The example of the doc comment: "split-text" becomes "Split Text". */
  lemma DecodeSplitText(raw: string)
    requires raw == "split-text"
    ensures DecodeLabel(raw) == "Split Text"
  {
    var title := DecodeLabel(raw);
    assert title == TitleCase(raw);
    forall i | 0 <= i < |raw|
      ensures title[i] == "Split Text"[i]
    {
      assert title[i] == TitleAt(raw, i);
    }
  }

  /** Empty segments stay empty: "a--b" becomes "A  B", and an edge hyphen an edge space. */
  lemma DecodeEmptySegments(raw: string)
    requires raw == "a--b" || raw == "-a"
    ensures raw == "a--b" ==> DecodeLabel(raw) == "A  B"
    ensures raw == "-a" ==> DecodeLabel(raw) == " A"
  {
  }
}
