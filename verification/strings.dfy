/**
 String operations behind the sentence-case helper: `trim`, `toLowerCase` on
 a whole string, and the case- and whitespace-blind "skeleton" of a string
 that states which characters a transformation may change.
 */
module Strings {
  import opened Chars

  lemma AppendAssoc(a: string, b: string, c: string)
    ensures a + (b + c) == (a + b) + c
  {
  }

  predicate AllWhitespace(s: string) {
    forall i :: 0 <= i < |s| ==> IsWhitespace(s[i])
  }

  /** Neither the first nor the last character is whitespace. */
  predicate Trimmed(s: string) {
    |s| == 0 || (!IsWhitespace(s[0]) && !IsWhitespace(s[|s| - 1]))
  }

  /** `toLowerCase` over a whole string. */
  function LowerAll(s: string): (r: string)
    ensures |r| == |s|
    ensures forall i :: 0 <= i < |s| ==> r[i] == ToLower(s[i])
  {
    seq(|s|, i requires 0 <= i < |s| => ToLower(s[i]))
  }

  /** Drops the maximal leading run of whitespace. */
  function TrimStart(s: string): (r: string)
    ensures |r| <= |s| && r == s[|s| - |r|..]
    ensures |r| == 0 || !IsWhitespace(r[0])
  {
    if |s| > 0 && IsWhitespace(s[0]) then TrimStart(s[1..]) else s
  }

  /** Drops the maximal trailing run of whitespace. */
  function TrimEnd(s: string): (r: string)
    ensures |r| <= |s| && r == s[..|r|]
    ensures |r| == 0 || !IsWhitespace(r[|r| - 1])
  {
    if |s| > 0 && IsWhitespace(s[|s| - 1]) then TrimEnd(s[..|s| - 1]) else s
  }

  /** `String.prototype.trim`. */
  function Trim(s: string): (r: string)
    ensures Trimmed(r)
  {
    TrimStart(TrimEnd(s))
  }

  /** `TrimStart` removes whitespace only. */
  lemma {:induction false} TrimStartDropsWhitespace(s: string)
    ensures AllWhitespace(s[..|s| - |TrimStart(s)|])
    decreases |s|
  {
    if |s| > 0 && IsWhitespace(s[0]) {
      var t := s[1..];
      TrimStartDropsWhitespace(t);
      var n := |t| - |TrimStart(t)|;
      assert s[..n + 1] == [s[0]] + t[..n];
    }
  }

  /** `TrimEnd` removes whitespace only. */
  lemma {:induction false} TrimEndDropsWhitespace(s: string)
    ensures AllWhitespace(s[|TrimEnd(s)|..])
    decreases |s|
  {
    if |s| > 0 && IsWhitespace(s[|s| - 1]) {
      var t := s[..|s| - 1];
      TrimEndDropsWhitespace(t);
      var n := |TrimEnd(t)|;
      assert s[n..] == t[n..] + [s[|s| - 1]];
    }
  }

  /** Trimming leaves the infix of `s` between a whitespace prefix and a
      whitespace suffix, so whitespace strictly inside is kept. */
  lemma TrimIsInfix(s: string) returns (a: nat, b: nat)
    ensures a <= b <= |s| && Trim(s) == s[a..b]
    ensures AllWhitespace(s[..a]) && AllWhitespace(s[b..])
  {
    var e := TrimEnd(s);
    var r := TrimStart(e);
    a, b := |e| - |r|, |e|;
    TrimEndDropsWhitespace(s);
    TrimStartDropsWhitespace(e);
    assert s[..a] == e[..a];
  }

  lemma TrimOfTrimmed(s: string)
    requires Trimmed(s)
    ensures Trim(s) == s
  {
    assert TrimEnd(s) == s;
    assert TrimStart(s) == s;
    assert Trim(s) == TrimStart(TrimEnd(s));
  }

  /** A string with one separating space in front trims back to itself. */
  lemma TrimSpaced(s: string)
    requires |s| > 0 && Trimmed(s)
    ensures Trim([' '] + s) == s
  {
    var t := [' '] + s;
    assert t[1..] == s && t[|t| - 1] == s[|s| - 1];
    assert TrimEnd(t) == t;
    assert TrimStart(s) == s;
  }

  /** What survives a change of case and whitespace: the non-whitespace
      characters, in order, folded to lower case. */
  function Skeleton(s: string): string
  {
    if |s| == 0 then []
    else (if IsWhitespace(s[0]) then [] else [ToLower(s[0])]) + Skeleton(s[1..])
  }

  lemma {:induction false} SkeletonAppend(a: string, b: string)
    ensures Skeleton(a + b) == Skeleton(a) + Skeleton(b)
    decreases |a|
  {
    if |a| > 0 {
      var s := a + b;
      var h := if IsWhitespace(a[0]) then [] else [ToLower(a[0])];
      assert s[0] == a[0] && s[1..] == a[1..] + b;
      assert Skeleton(s) == h + Skeleton(a[1..] + b);
      SkeletonAppend(a[1..], b);
      AppendAssoc(h, Skeleton(a[1..]), Skeleton(b));
    } else {
      assert a + b == b;
    }
  }

  /** A string has an empty skeleton exactly when it is all whitespace. */
  lemma {:induction false} SkeletonEmpty(s: string)
    ensures Skeleton(s) == [] <==> AllWhitespace(s)
    decreases |s|
  {
    if |s| > 0 {
      SkeletonEmpty(s[1..]);
      if AllWhitespace(s[1..]) && IsWhitespace(s[0]) {
        assert AllWhitespace(s) by {
          forall i | 0 <= i < |s| ensures IsWhitespace(s[i]) {
            if i > 0 { assert s[i] == s[1..][i - 1]; }
          }
        }
      }
    }
  }

  /** Two strings that agree position by position up to case have the same skeleton. */
  lemma {:induction false} SkeletonIgnoresCase(a: string, b: string)
    requires |a| == |b|
    requires forall i :: 0 <= i < |a| ==> ToLower(a[i]) == ToLower(b[i])
    ensures Skeleton(a) == Skeleton(b)
    decreases |a|
  {
    if |a| > 0 {
      CaseKeepsClass(a[0]);
      CaseKeepsClass(b[0]);
      assert IsWhitespace(a[0]) == IsWhitespace(ToLower(a[0]));
      SkeletonIgnoresCase(a[1..], b[1..]);
    }
  }

  lemma {:induction false} SkeletonTrimStart(s: string)
    ensures Skeleton(TrimStart(s)) == Skeleton(s)
    decreases |s|
  {
    if |s| > 0 && IsWhitespace(s[0]) {
      SkeletonTrimStart(s[1..]);
    }
  }

  lemma {:induction false} SkeletonTrimEnd(s: string)
    ensures Skeleton(TrimEnd(s)) == Skeleton(s)
    decreases |s|
  {
    if |s| > 0 && IsWhitespace(s[|s| - 1]) {
      var p := s[..|s| - 1];
      SkeletonTrimEnd(p);
      assert s == p + [s[|s| - 1]];
      SkeletonAppend(p, [s[|s| - 1]]);
    }
  }

  /** Trimming removes only whitespace. */
  lemma SkeletonTrim(s: string)
    ensures Skeleton(Trim(s)) == Skeleton(s)
  {
    SkeletonTrimEnd(s);
    SkeletonTrimStart(TrimEnd(s));
  }
}
