/** The few Python `str` operations the core relies on: `lower`, `replace`, `split`/`join`
    on a one-character separator, and `strip`. */
module PyStr {

  /** `str.lower` on the ASCII letters; every other character is left as it is. */
  function LowerChar(c: char): (r: char)
    ensures 'A' <= c <= 'Z' ==> 'a' <= r <= 'z'
    ensures !('A' <= c <= 'Z') ==> r == c
  {
    if 'A' <= c <= 'Z' then (c as int + 32) as char else c
  }

  function Lower(s: string): (r: string)
    ensures |r| == |s|
    ensures forall i :: 0 <= i < |s| ==> r[i] == LowerChar(s[i])
  {
    if s == [] then [] else [LowerChar(s[0])] + Lower(s[1..])
  }

  /** Python's `s.replace(pat, rep)` for a non-empty `pat`: occurrences are found left to
      right and do not overlap. */
  function ReplaceAll(s: string, pat: string, rep: string): string
    requires pat != []
    decreases |s|
  {
    if |s| < |pat| then s
    else if s[..|pat|] == pat then rep + ReplaceAll(s[|pat|..], pat, rep)
    else [s[0]] + ReplaceAll(s[1..], pat, rep)
  }

  /** A text in which the pattern's first character never occurs is returned unchanged. */
  lemma {:induction false} ReplaceAllAbsent(s: string, pat: string, rep: string)
    requires pat != [] && pat[0] !in s
    ensures ReplaceAll(s, pat, rep) == s
    decreases |s|
  {
    if |s| >= |pat| {
      assert s[..|pat|][0] == s[0];
      ReplaceAllAbsent(s[1..], pat, rep);
    }
  }

  /** A character that is in neither the text nor the replacement is not in the result. */
  lemma {:induction false} ReplaceAllKeepsAbsent(s: string, pat: string, rep: string, c: char)
    requires pat != [] && c !in s && c !in rep
    ensures c !in ReplaceAll(s, pat, rep)
    decreases |s|
  {
    if |s| < |pat| {
    } else if s[..|pat|] == pat {
      ReplaceAllKeepsAbsent(s[|pat|..], pat, rep, c);
    } else {
      ReplaceAllKeepsAbsent(s[1..], pat, rep, c);
    }
  }

  /** Replacing a one-character pattern by a text without that character removes it entirely. */
  lemma {:induction false} ReplaceAllRemoves(s: string, pat: string, rep: string)
    requires |pat| == 1 && pat[0] !in rep
    ensures pat[0] !in ReplaceAll(s, pat, rep)
    decreases |s|
  {
    if |s| < |pat| {
    } else if s[..|pat|] == pat {
      ReplaceAllRemoves(s[|pat|..], pat, rep);
    } else {
      assert s[0] != pat[0] by { assert s[..1] == [s[0]]; }
      ReplaceAllRemoves(s[1..], pat, rep);
    }
  }

  /** Python's `s.split(sep)`: always at least one part; `""` gives `[""]`. */
  function Split(s: string, sep: char): (parts: seq<string>)
    ensures |parts| >= 1
    decreases |s|
  {
    if s == [] then [[]]
    else
      var rest := Split(s[1..], sep);
      if s[0] == sep then [[]] + rest else [[s[0]] + rest[0]] + rest[1..]
  }

  /** Python's `sep.join(parts)`. */
  function Join(parts: seq<string>, sep: char): string
    decreases |parts|
  {
    if |parts| == 0 then []
    else if |parts| == 1 then parts[0]
    else parts[0] + [sep] + Join(parts[1..], sep)
  }

  /** Number of occurrences of `c` in `s`. */
  function Count(s: string, c: char): nat
    decreases |s|
  {
    if s == [] then 0 else (if s[0] == c then 1 else 0) + Count(s[1..], c)
  }

  lemma {:induction false} CountAppend(a: string, b: string, c: char)
    ensures Count(a + b, c) == Count(a, c) + Count(b, c)
    decreases |a|
  {
    if a == [] {
      assert a + b == b;
    } else {
      assert (a + b)[1..] == a[1..] + b;
      CountAppend(a[1..], b, c);
    }
  }

  /** Joining the parts of a split gives back the text. */
  lemma {:induction false} JoinSplit(s: string, sep: char)
    ensures Join(Split(s, sep), sep) == s
    decreases |s|
  {
    if s != [] {
      var rest := Split(s[1..], sep);
      JoinSplit(s[1..], sep);
      if s[0] == sep {
        assert ([[]] + rest)[1..] == rest;
      } else if |rest| > 1 {
        assert ([[s[0]] + rest[0]] + rest[1..])[1..] == rest[1..];
      }
    }
  }

  /** No part of a split contains the separator. */
  lemma {:induction false} SplitPartsFree(s: string, sep: char)
    ensures forall k :: 0 <= k < |Split(s, sep)| ==> sep !in Split(s, sep)[k]
    decreases |s|
  {
    if s != [] {
      SplitPartsFree(s[1..], sep);
    }
  }

  /** Joining two non-empty runs of parts puts exactly one separator between them. */
  lemma {:induction false} JoinAppend(xs: seq<string>, ys: seq<string>, sep: char)
    requires |xs| > 0 && |ys| > 0
    ensures Join(xs + ys, sep) == Join(xs, sep) + [sep] + Join(ys, sep)
    decreases |xs|
  {
    if |xs| > 1 {
      assert (xs + ys)[1..] == xs[1..] + ys;
      JoinAppend(xs[1..], ys, sep);
    }
  }

  lemma JoinFront(parts: seq<string>, lo: nat, hi: nat, sep: char)
    requires 0 < lo < hi <= |parts|
    ensures Join(parts[..hi], sep) == Join(parts[..lo], sep) + [sep] + Join(parts[lo..hi], sep)
  {
    assert parts[..hi] == parts[..lo] + parts[lo..hi];
    JoinAppend(parts[..lo], parts[lo..hi], sep);
  }

  lemma JoinBack(parts: seq<string>, hi: nat, sep: char)
    requires 0 < hi < |parts|
    ensures Join(parts, sep) == Join(parts[..hi], sep) + [sep] + Join(parts[hi..], sep)
  {
    assert parts == parts[..hi] + parts[hi..];
    JoinAppend(parts[..hi], parts[hi..], sep);
  }

  /** Joining parts free of the separator puts one separator between each two parts. */
  lemma {:induction false} JoinCount(parts: seq<string>, sep: char)
    requires |parts| > 0
    requires forall k :: 0 <= k < |parts| ==> sep !in parts[k]
    ensures Count(Join(parts, sep), sep) == |parts| - 1
    decreases |parts|
  {
    FreeCount(parts[0], sep);
    if |parts| > 1 {
      JoinCount(parts[1..], sep);
      CountAppend(parts[0], [sep], sep);
      CountAppend(parts[0] + [sep], Join(parts[1..], sep), sep);
    }
  }

  lemma {:induction false} FreeCount(s: string, c: char)
    requires c !in s
    ensures Count(s, c) == 0
    decreases |s|
  {
    if s != [] {
      FreeCount(s[1..], c);
    }
  }

  /** The characters Python's `str.strip()` removes (`str.isspace`). */
  predicate IsSpace(c: char)
  {
    var k := c as int;
    || 0x09 <= k <= 0x0D || 0x1C <= k <= 0x20 || k == 0x85 || k == 0xA0 || k == 0x1680
    || 0x2000 <= k <= 0x200A || k == 0x2028 || k == 0x2029 || k == 0x202F || k == 0x205F
    || k == 0x3000
  }

  predicate AllSpace(s: string)
  {
    forall i :: 0 <= i < |s| ==> IsSpace(s[i])
  }

  function StripLeft(s: string): string
    decreases |s|
  {
    if s != [] && IsSpace(s[0]) then StripLeft(s[1..]) else s
  }

  function StripRight(s: string): string
    decreases |s|
  {
    if s != [] && IsSpace(s[|s| - 1]) then StripRight(s[..|s| - 1]) else s
  }

  /** Python's `s.strip()`. */
  function Strip(s: string): string
  {
    StripRight(StripLeft(s))
  }

  lemma {:induction false} StripLeftShape(s: string)
    ensures exists w :: AllSpace(w) && s == w + StripLeft(s)
    ensures StripLeft(s) == [] || !IsSpace(StripLeft(s)[0])
    decreases |s|
  {
    if s != [] && IsSpace(s[0]) {
      StripLeftShape(s[1..]);
      var w :| AllSpace(w) && s[1..] == w + StripLeft(s[1..]);
      assert s == [s[0]] + w + StripLeft(s);
      assert AllSpace([s[0]] + w);
    } else {
      var w: string := [];
      assert AllSpace(w) && s == w + StripLeft(s);
    }
  }

  lemma {:induction false} StripRightShape(s: string)
    ensures |StripRight(s)| <= |s| && StripRight(s) == s[..|StripRight(s)|]
    ensures AllSpace(s[|StripRight(s)|..])
    ensures StripRight(s) == [] || !IsSpace(StripRight(s)[|StripRight(s)| - 1])
    decreases |s|
  {
    if s != [] && IsSpace(s[|s| - 1]) {
      var init := s[..|s| - 1];
      StripRightShape(init);
      var r := StripRight(init);
      assert StripRight(s) == r;
      assert r == s[..|r|] by { assert init[..|r|] == s[..|r|]; }
      var tail := s[|r|..];
      assert AllSpace(tail) by {
        forall i | 0 <= i < |tail| ensures IsSpace(tail[i]) {
          if i < |tail| - 1 { assert tail[i] == init[|r|..][i]; }
        }
      }
    } else {
      assert s[|s|..] == [];
    }
  }

  /** `strip` removes whitespace and only whitespace from both ends: the input is the result
      with runs of whitespace around it, and the result neither starts nor ends in whitespace. */
  lemma StripShape(s: string)
    ensures exists w1, w2 :: AllSpace(w1) && AllSpace(w2) && s == w1 + Strip(s) + w2
    ensures Strip(s) == [] || (!IsSpace(Strip(s)[0]) && !IsSpace(Strip(s)[|Strip(s)| - 1]))
  {
    StripLeftShape(s);
    var w1 :| AllSpace(w1) && s == w1 + StripLeft(s);
    StripRightShape(StripLeft(s));
    var w2 := StripLeft(s)[|Strip(s)|..];
    assert StripLeft(s) == Strip(s) + w2;
    assert s == w1 + Strip(s) + w2;
    if Strip(s) != [] {
      assert StripLeft(s) == Strip(s) + w2;
      assert StripLeft(s)[0] == Strip(s)[0];
    }
  }

  /** A text made only of whitespace strips to nothing. */
  lemma {:induction false} StripAllSpace(s: string)
    requires AllSpace(s)
    ensures StripLeft(s) == [] && Strip(s) == []
    decreases |s|
  {
    if s != [] {
      assert AllSpace(s[1..]) by {
        forall i | 0 <= i < |s[1..]| ensures IsSpace(s[1..][i]) { assert s[1..][i] == s[i + 1]; }
      }
      StripAllSpace(s[1..]);
    }
  }

  lemma {:induction false} StripLeftPadding(w: string, s: string)
    requires AllSpace(w)
    ensures StripLeft(w + s) == StripLeft(s)
    decreases |w|
  {
    if w != [] {
      assert (w + s)[1..] == w[1..] + s;
      StripLeftPadding(w[1..], s);
    } else {
      assert w + s == s;
    }
  }

  lemma {:induction false} StripRightPadding(s: string, w: string)
    requires AllSpace(w)
    ensures StripRight(s + w) == StripRight(s)
    decreases |w|
  {
    if w != [] {
      var sw := s + w;
      assert sw[..|sw| - 1] == s + w[..|w| - 1];
      StripRightPadding(s, w[..|w| - 1]);
    } else {
      assert s + w == s;
    }
  }

  lemma {:induction false} StripLeftAppend(s: string, w: string)
    requires AllSpace(w)
    ensures StripLeft(s + w) == (if StripLeft(s) == [] then [] else StripLeft(s) + w)
    decreases |s|
  {
    if s == [] {
      var e: string := [];
      assert w + e == w && s + w == w;
      StripLeftPadding(w, e);
    } else if IsSpace(s[0]) {
      assert (s + w)[1..] == s[1..] + w;
      StripLeftAppend(s[1..], w);
    }
  }

  /** Whitespace added around a text does not change what `strip` returns. */
  lemma StripPadding(w1: string, s: string, w2: string)
    requires AllSpace(w1) && AllSpace(w2)
    ensures Strip(w1 + s + w2) == Strip(s)
  {
    assert w1 + s + w2 == w1 + (s + w2);
    StripLeftPadding(w1, s + w2);
    StripLeftAppend(s, w2);
    if StripLeft(s) != [] {
      StripRightPadding(StripLeft(s), w2);
    }
  }
}
