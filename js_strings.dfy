/**
 * The JavaScript string built-ins that the gallery's helpers are written with:
 * `split`, `join`, `includes`, `toLowerCase`/`toUpperCase` and the regular
 * expression class `\s`. Case mapping is modelled for ASCII letters only.
 */
module JsStrings {

  /**
   * Characters matched by the regular-expression class `\s`: among ASCII
   * characters the space and tab to carriage return, and never a letter or a
   * digit.
   */
  predicate IsSpace(c: char): (r: bool)
    ensures c as int < 128 ==> (r <==> c == ' ' || '\t' <= c <= '\r')
    ensures 'a' <= c <= 'z' || 'A' <= c <= 'Z' || '0' <= c <= '9' ==> !r
  {
    || c == ' ' || c == '\t' || c == '\n' || c == '\r'
    || c as int == 0x0B || c as int == 0x0C
    || c as int == 0x00A0 || c as int == 0x1680
    || 0x2000 <= c as int <= 0x200A
    || c as int == 0x2028 || c as int == 0x2029 || c as int == 0x202F
    || c as int == 0x205F || c as int == 0x3000 || c as int == 0xFEFF
  }

  predicate IsHyphen(c: char) { c == '-' }

  predicate IsSlash(c: char) { c == '/' }

  /** `toLowerCase` on one character, ASCII letters only. */
  function LowerChar(c: char): (r: char)
    ensures 'A' <= c <= 'Z' ==> r as int == c as int + 32
    ensures !('A' <= c <= 'Z') ==> r == c
  {
    if 'A' <= c <= 'Z' then (c as int + 32) as char else c
  }

  /** `toUpperCase` on one character, ASCII letters only. */
  function UpperChar(c: char): (r: char)
    ensures 'a' <= c <= 'z' ==> r as int == c as int - 32
    ensures !('a' <= c <= 'z') ==> r == c
  {
    if 'a' <= c <= 'z' then (c as int - 32) as char else c
  }

  /** `s.toLowerCase()`. */
  function Lower(s: string): (r: string)
    ensures |r| == |s|
    ensures forall i :: 0 <= i < |s| ==> r[i] == LowerChar(s[i])
  {
    if s == [] then [] else [LowerChar(s[0])] + Lower(s[1..])
  }

  /** `s.toUpperCase()`. */
  function Upper(s: string): (r: string)
    ensures |r| == |s|
    ensures forall i :: 0 <= i < |s| ==> r[i] == UpperChar(s[i])
  {
    if s == [] then [] else [UpperChar(s[0])] + Upper(s[1..])
  }

  /** `t` occurs in `s` starting at index `i`. */
  predicate OccursAt(s: string, t: string, i: int) {
    0 <= i && i + |t| <= |s| && s[i..i + |t|] == t
  }

  /** `s.includes(t)`: `t` occurs somewhere in `s`; a prefix, and so the empty string, always does. */
  function Includes(s: string, t: string): (r: bool)
    ensures t <= s ==> r
    ensures r ==> |t| <= |s|
  {
    assert t <= s ==> OccursAt(s, t, 0);
    exists i :: 0 <= i <= |s| && OccursAt(s, t, i)
  }

  /**
   * `s.split(sep)` where `sep` is one character (a string separator), or any
   * character of a class: the pieces between separators, in order, empty
   * pieces included.
   */
  function Split(s: string, isSep: char -> bool): (r: seq<string>)
    ensures |r| >= 1
    ensures forall k :: 0 <= k < |r| ==> forall c :: c in r[k] ==> !isSep(c)
  {
    if s == [] then [[]]
    else
      var rest := Split(s[1..], isSep);
      if isSep(s[0]) then [[]] + rest
      else [[s[0]] + rest[0]] + rest[1..]
  }

  /** The suffix of `s` left after dropping its leading run of separators. */
  function SkipRun(s: string, isSep: char -> bool): (r: string)
    ensures |r| <= |s| && r == s[|s| - |r|..]
    ensures r == [] || !isSep(r[0])
    ensures forall k :: 0 <= k < |s| - |r| ==> isSep(s[k])
  {
    if s != [] && isSep(s[0]) then SkipRun(s[1..], isSep) else s
  }

  /**
   * `s.split(/[class]+/)`: the pieces between maximal runs of separator
   * characters, in order; a leading or trailing run gives an empty piece.
   */
  function SplitOnRuns(s: string, isSep: char -> bool): (r: seq<string>)
    ensures |r| >= 1
    ensures forall k :: 0 <= k < |r| ==> forall c :: c in r[k] ==> !isSep(c)
    decreases |s|
  {
    if s == [] then [[]]
    else if isSep(s[0]) then [[]] + SplitOnRuns(SkipRun(s[1..], isSep), isSep)
    else
      var rest := SplitOnRuns(s[1..], isSep);
      [[s[0]] + rest[0]] + rest[1..]
  }

  /** `ws.join(sep)`: starts with the first piece, and is that piece alone when there is one. */
  function Join(ws: seq<string>, sep: char): (r: string)
    ensures |ws| >= 1 ==> ws[0] <= r
    ensures |ws| == 1 ==> r == ws[0]
  {
    if |ws| == 0 then []
    else if |ws| == 1 then ws[0]
    else ws[0] + [sep] + Join(ws[1..], sep)
  }

  /**
   * `s` with every maximal run of separator characters replaced by the one
   * character `sep`: what joining the pieces of a split on runs gives back.
   */
  function Collapse(s: string, isSep: char -> bool, sep: char): (r: string)
    ensures |r| <= |s|
    decreases |s|
  {
    if s == [] then []
    else if isSep(s[0]) then [sep] + Collapse(SkipRun(s[1..], isSep), isSep, sep)
    else [s[0]] + Collapse(s[1..], isSep, sep)
  }

  /** `ws.filter(Boolean)`: the non-empty strings of `ws`, in order. */
  function NonEmpty(ws: seq<string>): (r: seq<string>)
    ensures forall w :: w in r ==> w != [] && w in ws
    ensures forall w :: w in ws && w != [] ==> w in r
  {
    if ws == [] then []
    else if ws[0] == [] then NonEmpty(ws[1..])
    else [ws[0]] + NonEmpty(ws[1..])
  }

  // ---------------------------------------------------------------------
  // Properties of the case mapping.

  /** Lowercasing is idempotent. */
  lemma LowerIdempotent(s: string)
    ensures Lower(Lower(s)) == Lower(s)
  {
  }

  /** Lowercasing forgets the case of ASCII letters: upper-casing first changes nothing. */
  lemma LowerOfUpper(s: string)
    ensures Lower(Upper(s)) == Lower(s)
  {
  }

  // ---------------------------------------------------------------------
  // Properties of split and join.

  /** A string without separators splits into itself alone. */
  lemma {:induction false} SplitNoSeparator(s: string, isSep: char -> bool)
    requires forall c :: c in s ==> !isSep(c)
    ensures Split(s, isSep) == [s]
  {
    if s != [] {
      SplitNoSeparator(s[1..], isSep);
      assert [s[0]] + s[1..] == s;
    }
  }

  /** Splitting at the first separator: the piece before it, then the split of the rest. */
  lemma {:induction false} SplitAtSeparator(w: string, x: char, t: string, isSep: char -> bool)
    requires forall c :: c in w ==> !isSep(c)
    requires isSep(x)
    ensures Split(w + [x] + t, isSep) == [w] + Split(t, isSep)
  {
    if w == [] {
      assert w + [x] + t == [x] + t;
      assert ([x] + t)[1..] == t;
    } else {
      SplitAtSeparator(w[1..], x, t, isSep);
      assert (w + [x] + t)[1..] == w[1..] + [x] + t;
      assert [w[0]] + w[1..] == w;
    }
  }

  /** Joining the pieces of a split with the separator gives back the string. */
  lemma {:induction false} JoinSplit(s: string, sep: char, isSep: char -> bool)
    requires forall c :: isSep(c) <==> c == sep
    ensures Join(Split(s, isSep), sep) == s
  {
    if s != [] {
      var rest := Split(s[1..], isSep);
      JoinSplit(s[1..], sep, isSep);
      if isSep(s[0]) {
        assert Split(s, isSep) == [[]] + rest;
        assert ([[]] + rest)[1..] == rest;
        assert s == [sep] + s[1..];
      } else {
        var ws := [[s[0]] + rest[0]] + rest[1..];
        assert Split(s, isSep) == ws;
        if |rest| == 1 {
          assert Join(rest, sep) == rest[0];
        } else {
          assert ws[1..] == rest[1..];
          assert Join(rest, sep) == rest[0] + [sep] + Join(rest[1..], sep);
        }
        assert s == [s[0]] + s[1..];
      }
    }
  }

  /** Splitting a join of separator-free pieces gives back the pieces. */
  lemma {:induction false} SplitJoin(ws: seq<string>, sep: char, isSep: char -> bool)
    requires forall c :: isSep(c) <==> c == sep
    requires |ws| >= 1
    requires forall k :: 0 <= k < |ws| ==> sep !in ws[k]
    ensures Split(Join(ws, sep), isSep) == ws
  {
    if |ws| == 1 {
      SplitNoSeparator(ws[0], isSep);
    } else {
      SplitJoin(ws[1..], sep, isSep);
      SplitAtSeparator(ws[0], sep, Join(ws[1..], sep), isSep);
      assert [ws[0]] + ws[1..] == ws;
    }
  }

  /** A string without separators splits on runs into itself alone. */
  lemma {:induction false} SplitOnRunsNoSeparator(s: string, isSep: char -> bool)
    requires forall c :: c in s ==> !isSep(c)
    ensures SplitOnRuns(s, isSep) == [s]
  {
    if s != [] {
      SplitOnRunsNoSeparator(s[1..], isSep);
      assert [s[0]] + s[1..] == s;
    }
  }

  /** Skipping a run of separators that is followed by a non-separator leaves exactly what follows. */
  lemma {:induction false} SkipRunOfRun(run: string, t: string, isSep: char -> bool)
    requires forall c :: c in run ==> isSep(c)
    requires t == [] || !isSep(t[0])
    ensures SkipRun(run + t, isSep) == t
  {
    if run == [] {
      assert run + t == t;
    } else {
      var s := run + t;
      assert run[0] in run;
      assert s[0] == run[0] && s[1..] == run[1..] + t;
      assert SkipRun(s, isSep) == SkipRun(s[1..], isSep);
      SkipRunOfRun(run[1..], t, isSep);
    }
  }

  /**
   * Splitting on runs at the first run of separators, however long: the piece
   * before it, then the split of what follows the whole run.
   */
  lemma {:induction false} SplitOnRunsAtRun(w: string, run: string, t: string, isSep: char -> bool)
    requires forall c :: c in w ==> !isSep(c)
    requires run != [] && forall c :: c in run ==> isSep(c)
    requires t == [] || !isSep(t[0])
    ensures SplitOnRuns(w + run + t, isSep) == [w] + SplitOnRuns(t, isSep)
  {
    var s := w + run + t;
    if w == [] {
      assert run[0] in run;
      assert s[0] == run[0] && s[1..] == run[1..] + t;
      SkipRunOfRun(run[1..], t, isSep);
      assert SplitOnRuns(s, isSep) == [[]] + SplitOnRuns(SkipRun(s[1..], isSep), isSep);
    } else {
      assert w[0] in w;
      assert s[0] == w[0] && s[1..] == w[1..] + run + t;
      SplitOnRunsAtRun(w[1..], run, t, isSep);
      var rest := SplitOnRuns(s[1..], isSep);
      assert SplitOnRuns(s, isSep) == [[w[0]] + rest[0]] + rest[1..];
      assert [w[0]] + w[1..] == w;
    }
  }

  /**
   * Joining the pieces of a split on runs with `sep` gives back the string
   * with each run of separators collapsed to one `sep`.
   */
  lemma {:induction false} JoinSplitOnRuns(s: string, isSep: char -> bool, sep: char)
    ensures Join(SplitOnRuns(s, isSep), sep) == Collapse(s, isSep, sep)
    decreases |s|
  {
    if s != [] {
      if isSep(s[0]) {
        var u := SkipRun(s[1..], isSep);
        var rest := SplitOnRuns(u, isSep);
        JoinSplitOnRuns(u, isSep, sep);
        assert SplitOnRuns(s, isSep) == [[]] + rest;
        assert ([[]] + rest)[1..] == rest;
      } else {
        var rest := SplitOnRuns(s[1..], isSep);
        JoinSplitOnRuns(s[1..], isSep, sep);
        var ws := [[s[0]] + rest[0]] + rest[1..];
        assert SplitOnRuns(s, isSep) == ws;
        if |rest| > 1 {
          assert ws[1..] == rest[1..];
          assert Join(rest, sep) == rest[0] + [sep] + Join(rest[1..], sep);
        }
      }
    }
  }

  /** A string made only of separators splits on runs into empty pieces. */
  lemma SplitOnRunsAllSeparators(s: string, isSep: char -> bool)
    requires forall c :: c in s ==> isSep(c)
    ensures forall k :: 0 <= k < |SplitOnRuns(s, isSep)| ==> SplitOnRuns(s, isSep)[k] == []
  {
    if s != [] {
      assert SkipRun(s[1..], isSep) == [];
    }
  }

  /** A list of empty strings has no non-empty member. */
  lemma {:induction false} NonEmptyOfEmpties(ws: seq<string>)
    requires forall k :: 0 <= k < |ws| ==> ws[k] == []
    ensures NonEmpty(ws) == []
  {
    if ws != [] {
      NonEmptyOfEmpties(ws[1..]);
    }
  }
}
