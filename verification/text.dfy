/**
 The handful of Python `str` operations the parsers and the restore loop rely on:
 the `in` substring test, `split(sep)`, `split()`, `strip()` and `strip(chars)`,
 and `sep.join(parts)` as the partner of the two splits.
 */
module Text {
  import opened Seqs

  /** Python's `str.isspace()` for one character: the ASCII separators and the Unicode spaces. */
  predicate IsSpace(c: char)
  {
    || c == ' '
    || ('\t' <= c <= '\r')
    || ('\U{1C}' <= c <= '\U{1F}')
    || c == '\U{85}' || c == '\U{A0}' || c == '\U{1680}'
    || ('\U{2000}' <= c <= '\U{200A}')
    || c == '\U{2028}' || c == '\U{2029}' || c == '\U{202F}' || c == '\U{205F}' || c == '\U{3000}'
  }

  /** ASCII decimal digits (the model's reading of `str.isdigit()`). */
  predicate IsDigit(c: char)
  {
    '0' <= c <= '9'
  }

  predicate NoSpace(s: string)
  {
    forall i :: 0 <= i < |s| ==> !IsSpace(s[i])
  }

  /** `sub` occurs in `s` starting at index `i`. */
  predicate OccursAt(s: string, sub: string, i: int)
  {
    0 <= i && i + |sub| <= |s| && s[i..i + |sub|] == sub
  }

  /** An occurrence one place further into `s` is an occurrence in `s[1..]`. */
  lemma OccursAtShift(s: string, sub: string, i: int)
    requires |s| > 0 && i >= 0
    ensures OccursAt(s, sub, i + 1) <==> OccursAt(s[1..], sub, i)
  {
    if i + 1 + |sub| <= |s| {
      assert s[i + 1..i + 1 + |sub|] == s[1..][i..i + |sub|];
    }
  }

  /** Python's `sub in s`. */
  function Contains(s: string, sub: string): (r: bool)
    ensures r <==> exists i :: OccursAt(s, sub, i)
    decreases |s|
  {
    if |s| < |sub| then false
    else if s[..|sub|] == sub then
      assert OccursAt(s, sub, 0) by { assert s[0..|sub|] == s[..|sub|]; }
      true
    else
      var rest := Contains(s[1..], sub);
      assert rest ==> exists i :: OccursAt(s, sub, i) by {
        if rest {
          var j :| OccursAt(s[1..], sub, j);
          OccursAtShift(s, sub, j);
        }
      }
      assert (exists i :: OccursAt(s, sub, i)) ==> rest by {
        if i :| OccursAt(s, sub, i) {
          assert s[0..|sub|] == s[..|sub|];
          OccursAtShift(s, sub, i - 1);
        }
      }
      rest
  }

  /** `sep.join(parts)`. */
  function Join(parts: seq<string>, sep: char): string
  {
    if |parts| == 0 then ""
    else if |parts| == 1 then parts[0]
    else parts[0] + [sep] + Join(parts[1..], sep)
  }

  /**
   Python's `s.split(sep)` for a one-character separator: every piece between two
   separators, empty pieces included, so there is always at least one piece.
   */
  function Split(s: string, sep: char): (r: seq<string>)
    ensures |r| >= 1
    ensures forall k :: 0 <= k < |r| ==> sep !in r[k]
    ensures |r| >= 2 <==> sep in s
    decreases |s|
  {
    if |s| == 0 then [""]
    else
      var rest := Split(s[1..], sep);
      if s[0] == sep then [""] + rest
      else [[s[0]] + rest[0]] + rest[1..]
  }

  /** Joining the pieces back with the separator gives the original text. */
  lemma {:induction false} JoinSplit(s: string, sep: char)
    ensures Join(Split(s, sep), sep) == s
    decreases |s|
  {
    if |s| > 0 {
      var rest := Split(s[1..], sep);
      JoinSplit(s[1..], sep);
      HeadTail(s);
      if s[0] == sep {
        JoinEmptyHead(rest, sep);
      } else {
        JoinGrowHead(s[0], rest, sep);
      }
    }
  }

  /** An empty first piece contributes only its separator. */
  lemma JoinEmptyHead(rest: seq<string>, sep: char)
    requires |rest| >= 1
    ensures Join([""] + rest, sep) == [sep] + Join(rest, sep)
  {
    assert ([""] + rest)[1..] == rest;
  }

  /** A character put in front of the first piece comes first in the joined text. */
  lemma JoinGrowHead(c: char, rest: seq<string>, sep: char)
    requires |rest| >= 1
    ensures Join([[c] + rest[0]] + rest[1..], sep) == [c] + Join(rest, sep)
  {
    var parts := [[c] + rest[0]] + rest[1..];
    assert parts[1..] == rest[1..];
  }

  /** A piece free of the separator, followed by the separator, is split off whole. */
  lemma {:induction false} SplitHead(a: string, sep: char, t: string)
    requires sep !in a
    ensures Split(a + [sep] + t, sep) == [a] + Split(t, sep)
    decreases |a|
  {
    if |a| == 0 {
      assert a + [sep] + t == [sep] + t;
      assert ([sep] + t)[1..] == t;
    } else {
      SplitHead(a[1..], sep, t);
      assert (a + [sep] + t)[1..] == a[1..] + [sep] + t;
      assert [a[0]] + a[1..] == a;
    }
  }

  /** A text free of the separator splits into itself. */
  lemma {:induction false} SplitWhole(a: string, sep: char)
    requires sep !in a
    ensures Split(a, sep) == [a]
    decreases |a|
  {
    if |a| > 0 {
      SplitWhole(a[1..], sep);
      assert [a[0]] + a[1..] == a;
    }
  }

  /** The first piece of `split(sep)` is `p` exactly when `p` is all of `b` or is followed in `b` by the separator. */
  lemma FirstPiece(p: string, b: string, sep: char)
    requires sep !in p
    ensures Split(b, sep)[0] == p <==> b == p || (|b| > |p| && b[..|p| + 1] == p + [sep])
  {
    if b == p {
      SplitWhole(p, sep);
    } else if |b| > |p| && b[..|p| + 1] == p + [sep] {
      assert b == p + [sep] + b[|p| + 1..] by { assert b == b[..|p| + 1] + b[|p| + 1..]; }
      SplitHead(p, sep, b[|p| + 1..]);
    }
    if Split(b, sep)[0] == p {
      var parts := Split(b, sep);
      JoinSplit(b, sep);
      if |parts| == 1 {
        assert b == p;
      } else {
        assert b == p + [sep] + Join(parts[1..], sep);
        assert b[..|p| + 1] == p + [sep];
      }
    }
  }

  /** Splitting what was joined gives the parts back, when no part holds the separator. */
  lemma {:induction false} SplitJoin(parts: seq<string>, sep: char)
    requires |parts| >= 1
    requires forall k :: 0 <= k < |parts| ==> sep !in parts[k]
    ensures Split(Join(parts, sep), sep) == parts
    decreases |parts|
  {
    if |parts| == 1 {
      SplitWhole(parts[0], sep);
    } else {
      SplitJoin(parts[1..], sep);
      SplitHead(parts[0], sep, Join(parts[1..], sep));
      assert [parts[0]] + parts[1..] == parts;
    }
  }

  /**
   Python's `s.split()` with no argument: the maximal runs of non-whitespace,
   with leading, trailing and repeated whitespace producing no empty tokens.
   */
  function SplitWs(s: string): (r: seq<string>)
    ensures forall k :: 0 <= k < |r| ==> |r[k]| > 0 && NoSpace(r[k])
    ensures |s| > 0 && !IsSpace(s[0]) ==> |r| > 0 && r[0][0] == s[0]
    decreases |s|
  {
    if |s| == 0 then []
    else
      var rest := SplitWs(s[1..]);
      if IsSpace(s[0]) then rest
      else if |s| > 1 && !IsSpace(s[1]) then [[s[0]] + rest[0]] + rest[1..]
      else [[s[0]]] + rest
  }

  /** There are never more tokens than characters. */
  lemma {:induction false} SplitWsLength(s: string)
    ensures |SplitWs(s)| <= |s|
    decreases |s|
  {
    if |s| > 0 {
      SplitWsLength(s[1..]);
    }
  }

  /** A token followed by whitespace (or by nothing) is split off whole. */
  lemma {:induction false} SplitWsHead(t: string, u: string)
    requires |t| > 0 && NoSpace(t)
    requires |u| == 0 || IsSpace(u[0])
    ensures SplitWs(t + u) == [t] + SplitWs(u)
    decreases |t|
  {
    var s := t + u;
    assert s[1..] == t[1..] + u;
    if |t| == 1 {
      assert s[1..] == u;
      assert [t[0]] == t;
      assert |s| > 1 ==> s[1] == u[0];
    } else {
      SplitWsHead(t[1..], u);
      assert s[1] == t[1];
      assert [t[0]] + t[1..] == t;
    }
  }

  /** `" ".join(tokens).split()` gives the tokens back, when each is a non-empty run of non-whitespace. */
  lemma {:induction false} SplitWsJoin(tokens: seq<string>)
    requires forall k :: 0 <= k < |tokens| ==> |tokens[k]| > 0 && NoSpace(tokens[k])
    ensures SplitWs(Join(tokens, ' ')) == tokens
    decreases |tokens|
  {
    if |tokens| == 1 {
      SplitWsHead(tokens[0], "");
      AppendEmpty(tokens[0]);
    } else if |tokens| > 1 {
      var tail := Join(tokens[1..], ' ');
      SplitWsJoin(tokens[1..]);
      SplitWsHead(tokens[0], [' '] + tail);
      Around(tokens[0], ' ', tail);
      HeadTail(tokens);
    }
  }

  predicate AllSpace(s: string)
  {
    forall i :: 0 <= i < |s| ==> IsSpace(s[i])
  }

  /** Whitespace alone yields no token. */
  lemma {:induction false} SplitWsBlank(w: string)
    requires AllSpace(w)
    ensures SplitWs(w) == []
    decreases |w|
  {
    if |w| > 0 {
      SplitWsBlank(w[1..]);
    }
  }

  /** A non-empty run free of whitespace is one token. */
  lemma SplitWsToken(t: string)
    requires |t| > 0 && NoSpace(t)
    ensures SplitWs(t) == [t]
  {
    SplitWsHead(t, "");
    AppendEmpty(t);
  }

  /** Leading whitespace yields no token. */
  lemma {:induction false} SplitWsSkip(w: string, b: string)
    requires AllSpace(w)
    ensures SplitWs(w + b) == SplitWs(b)
    decreases |w|
  {
    if |w| > 0 {
      SplitWsSkip(w[1..], b);
      ConsTail(w, b);
    } else {
      AppendEmpty(b);
    }
  }

  /** Text that starts with whitespace (or is empty) cannot extend the last token of what precedes it. */
  lemma {:induction false} SplitWsAppend(a: string, u: string)
    requires |u| == 0 || IsSpace(u[0])
    ensures SplitWs(a + u) == SplitWs(a) + SplitWs(u)
    decreases |a|
  {
    if |a| == 0 {
      AppendEmpty(u);
    } else {
      ConsTail(a, u);
      SplitWsAppend(a[1..], u);
      if !IsSpace(a[0]) && |a| > 1 && !IsSpace(a[1]) {
        assert (a + u)[1] == a[1];
        SplitWsMerge(a[0], SplitWs(a[1..]), SplitWs(u));
      } else if !IsSpace(a[0]) {
        assert |a + u| > 1 ==> IsSpace((a + u)[1]) by {
          if |a| > 1 { assert (a + u)[1] == a[1]; } else if |u| > 0 { assert (a + u)[1] == u[0]; }
        }
      }
    }
  }

  lemma SplitWsMerge(c: char, ra: seq<string>, ru: seq<string>)
    requires |ra| > 0
    ensures [[c] + (ra + ru)[0]] + (ra + ru)[1..] == [[c] + ra[0]] + ra[1..] + ru
  {
    ConsTail(ra, ru);
  }

  /**
   A run of whitespace separates the tokens on either side of it. With `SplitWsBlank`
   and `SplitWsToken` this fixes `split()` on every string: the tokens are the maximal
   runs of non-whitespace, in order.
   */
  lemma SplitWsSeparates(a: string, w: string, b: string)
    requires |w| > 0 && AllSpace(w)
    ensures SplitWs(a + w + b) == SplitWs(a) + SplitWs(b)
  {
    SplitWsAppend(a, w + b);
    SplitWsSkip(w, b);
    Assoc(a, w, b);
  }

  /** The characters `strip` removes: `strip()` removes whitespace, `strip("\n")` one given character. */
  datatype CharSet = Whitespace | Just(c: char)

  predicate InSet(c: char, cs: CharSet)
  {
    match cs
    case Whitespace => IsSpace(c)
    case Just(d) => c == d
  }

  /**
   The character at index `i` of `s` is one `cs` names. Stated through this predicate,
   `AllIn` speaks about an index only when a proof asks about that index.
   */
  predicate InSetAt(s: string, i: int, cs: CharSet)
    requires 0 <= i < |s|
  {
    InSet(s[i], cs)
  }

  predicate AllIn(s: string, cs: CharSet)
  {
    forall i :: 0 <= i < |s| ==> InSetAt(s, i, cs)
  }

  /** `lstrip`: drops the longest prefix drawn from `cs`. */
  function StripLeft(s: string, cs: CharSet): (r: string)
    ensures |r| <= |s| && r == s[|s| - |r|..]
    ensures AllIn(s[..|s| - |r|], cs)
    ensures |r| == 0 || !InSet(r[0], cs)
    decreases |s|
  {
    if |s| > 0 && InSet(s[0], cs) then
      var r := StripLeft(s[1..], cs);
      StripLeftStep(s, r, cs);
      r
    else s
  }

  /** `rstrip`: drops the longest suffix drawn from `cs`. */
  function StripRight(s: string, cs: CharSet): (r: string)
    ensures |r| <= |s| && r == s[..|r|]
    ensures AllIn(s[|r|..], cs)
    ensures |r| == 0 || !InSet(r[|r| - 1], cs)
    decreases |s|
  {
    if |s| > 0 && InSet(s[|s| - 1], cs) then
      var r := StripRight(s[..|s| - 1], cs);
      StripRightStep(s, r, cs);
      r
    else s
  }

  lemma AllInAt(s: string, i: int, cs: CharSet)
    requires AllIn(s, cs) && 0 <= i < |s|
    ensures InSet(s[i], cs)
  {
    assert InSetAt(s, i, cs);
  }

  lemma AllInCons(c: char, t: string, cs: CharSet)
    requires InSet(c, cs) && AllIn(t, cs)
    ensures AllIn([c] + t, cs)
  {
    forall i | 0 <= i < |[c] + t| ensures InSetAt([c] + t, i, cs) {
      if i > 0 {
        assert InSetAt(t, i - 1, cs);
      }
    }
  }

  lemma AllInSnoc(t: string, c: char, cs: CharSet)
    requires InSet(c, cs) && AllIn(t, cs)
    ensures AllIn(t + [c], cs)
  {
    forall i | 0 <= i < |t + [c]| ensures InSetAt(t + [c], i, cs) {
      if i < |t| {
        assert InSetAt(t, i, cs);
      }
    }
  }

  /** A stripped first character joins the prefix `lstrip` removes. */
  lemma StripLeftStep(s: string, r: string, cs: CharSet)
    requires |s| > 0 && InSet(s[0], cs)
    requires |r| <= |s[1..]| && r == s[1..][|s[1..]| - |r|..] && AllIn(s[1..][..|s[1..]| - |r|], cs)
    ensures r == s[|s| - |r|..] && AllIn(s[..|s| - |r|], cs)
  {
    TailSlices(s, |s| - |r|);
    AllInCons(s[0], s[1..][..|s[1..]| - |r|], cs);
  }

  /** A stripped last character joins the suffix `rstrip` removes. */
  lemma StripRightStep(s: string, r: string, cs: CharSet)
    requires |s| > 0 && InSet(s[|s| - 1], cs)
    requires |r| <= |s| - 1 && r == s[..|s| - 1][..|r|] && AllIn(s[..|s| - 1][|r|..], cs)
    ensures r == s[..|r|] && AllIn(s[|r|..], cs)
  {
    InitSlices(s, |r|);
    AllInSnoc(s[..|s| - 1][|r|..], s[|s| - 1], cs);
  }

  /** `r` is `s` with the prefix `s[..i]` and a suffix removed, both drawn from `cs`. */
  predicate TrimmedAt(s: string, r: string, i: int, cs: CharSet)
  {
    0 <= i && i + |r| <= |s| && s[i..i + |r|] == r && AllIn(s[..i], cs) && AllIn(s[i + |r|..], cs)
  }

  /**
   Python's `strip`: the text between the longest prefix and the longest suffix
   drawn from `cs`. What remains neither starts nor ends with such a character.
   */
  function Strip(s: string, cs: CharSet): (r: string)
    ensures |r| == 0 || (!InSet(r[0], cs) && !InSet(r[|r| - 1], cs))
    ensures exists i :: TrimmedAt(s, r, i, cs)
  {
    var m := StripLeft(s, cs);
    var r := StripRight(m, cs);
    StripParts(s, m, r, cs);
    r
  }

  /** `rstrip` after `lstrip` cuts a prefix and a suffix of stripped characters and leaves no such character at either end. */
  lemma StripParts(s: string, m: string, r: string, cs: CharSet)
    requires |m| <= |s| && m == s[|s| - |m|..] && AllIn(s[..|s| - |m|], cs)
    requires |r| <= |m| && r == m[..|r|] && AllIn(m[|r|..], cs)
    requires |m| == 0 || !InSet(m[0], cs)
    requires |r| == 0 || !InSet(r[|r| - 1], cs)
    ensures TrimmedAt(s, r, |s| - |m|, cs)
    ensures |r| == 0 || (!InSet(r[0], cs) && !InSet(r[|r| - 1], cs))
  {
    var i := |s| - |m|;
    if |r| > 0 {
      assert r[0] == m[0];
    }
    assert s[i..i + |r|] == r;
    assert s[i + |r|..] == m[|r|..];
  }

  /** Stripping leaves nothing exactly when every character is one that is stripped. */
  lemma StripEmpty(s: string, cs: CharSet)
    ensures Strip(s, cs) == "" <==> AllIn(s, cs)
  {
    var m := StripLeft(s, cs);
    var r := StripRight(m, cs);
    if AllIn(s, cs) {
      if |m| > 0 {
        AllInAt(s, |s| - |m|, cs);
        assert false;
      }
    } else {
      var i :| 0 <= i < |s| && !InSetAt(s, i, cs);
      var j := KeptByLeft(s, m, cs, i);
      KeptByRight(m, r, cs, j);
    }
  }

  /** A character `lstrip` would not remove survives it, at position `j` of the result. */
  lemma KeptByLeft(s: string, m: string, cs: CharSet, i: nat) returns (j: nat)
    requires |m| <= |s| && m == s[|s| - |m|..] && AllIn(s[..|s| - |m|], cs)
    requires i < |s| && !InSet(s[i], cs)
    ensures j < |m| && !InSet(m[j], cs)
  {
    if i < |s| - |m| {
      AllInAt(s[..|s| - |m|], i, cs);
      assert false;
    }
    j := i - (|s| - |m|);
    assert m[j] == s[i];
  }

  /** A character `rstrip` would not remove leaves the result non-empty. */
  lemma KeptByRight(m: string, r: string, cs: CharSet, j: nat)
    requires |r| <= |m| && AllIn(m[|r|..], cs)
    requires j < |m| && !InSet(m[j], cs)
    ensures |r| > 0
  {
    if |r| <= j {
      AllInAt(m[|r|..], j - |r|, cs);
      assert false;
    }
  }

  /** Stripping never brings in a character the text did not hold. */
  lemma StripKeepsAbsent(s: string, c: char, cs: CharSet)
    requires c !in s
    ensures c !in Strip(s, cs)
  {
    var r := Strip(s, cs);
    var i :| TrimmedAt(s, r, i, cs);
    AbsentFromSlice(s, c, i, i + |r|);
  }

  /** Stripping twice is stripping once. */
  lemma StripIdempotent(s: string, cs: CharSet)
    ensures Strip(Strip(s, cs), cs) == Strip(s, cs)
  {
    var r := Strip(s, cs);
    if |r| > 0 {
      assert StripLeft(r, cs) == r;
      assert StripRight(r, cs) == r;
    }
  }
}
