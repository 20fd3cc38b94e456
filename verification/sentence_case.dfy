/**
 The sentence-case helper `toSentenceCase(text)`.

 The source evaluates `text.replace(/([^.!?]+[.!?]*)/g, callback).trim()`.
 `ReplaceAll` is the global-replace scan for that one regular expression: at a
 position holding a terminator the expression cannot match, so the character is
 copied; anywhere else the greedy match (a maximal run of non-terminators and
 then a maximal run of terminators) is handed to the callback `Rewrite`.

 `Segments` / `Sentences` / `JoinSpaced` give an independent description of
 the result, and `ToSentenceCaseBySegments` proves the two agree.
 */
module SentenceCase {
  import opened Chars
  import opened Strings

  // ---------------------------------------------------------------------------
  // Shapes

  /** Once a terminator appears every later character is one: the shape
      `[^.!?]*[.!?]*` (stated for neighbours; `StopsFrom` extends it). */
  predicate StopsTrail(s: string) {
    forall i :: 0 < i < |s| && IsStop(s[i - 1]) ==> IsStop(s[i])
  }

  /** A string the expression `[^.!?]+[.!?]*` matches in full. */
  predicate IsSegment(g: string) {
    |g| > 0 && !IsStop(g[0]) && StopsTrail(g)
  }

  predicate EndsWithStop(g: string) {
    |g| > 0 && IsStop(g[|g| - 1])
  }

  predicate AllStops(s: string) {
    forall i :: 0 <= i < |s| ==> IsStop(s[i])
  }

  function Concat(gs: seq<string>): string {
    if |gs| == 0 then [] else gs[0] + Concat(gs[1..])
  }

  /** Every string of `gs` is a whole match of the expression, and every one
      but the last ends in a terminator. */
  predicate Segmented(gs: seq<string>) {
    |gs| == 0 ||
    (IsSegment(gs[0]) && (|gs| > 1 ==> EndsWithStop(gs[0])) && Segmented(gs[1..]))
  }

  /** `gs` cuts `s` into the successive matches of the expression. */
  predicate IsSegmentation(s: string, gs: seq<string>) {
    Concat(gs) == s && Segmented(gs)
  }

  /** First letter not lower case, every later letter not upper case. */
  predicate SentenceCased(s: string) {
    |s| > 0 && !IsLower(s[0]) && forall i :: 1 <= i < |s| ==> !IsUpper(s[i])
  }

  // ---------------------------------------------------------------------------
  // The regular-expression scan

  /** Length of the maximal leading run of terminators (`[.!?]*`). */
  function StopRun(s: string): (n: nat)
    ensures n <= |s|
    ensures n == |s| || !IsStop(s[n])
  {
    if |s| > 0 && IsStop(s[0]) then 1 + StopRun(s[1..]) else 0
  }

  lemma {:induction false} StopRunIsStops(s: string)
    ensures AllStops(s[..StopRun(s)])
    decreases |s|
  {
    if |s| > 0 && IsStop(s[0]) {
      var t := s[1..];
      StopRunIsStops(t);
      assert s[..StopRun(s)] == [s[0]] + t[..StopRun(t)];
    }
  }

  /** The scanner for `[^.!?]+[.!?]*`: while `seenStop` is false it is still
      in the `[^.!?]+` part and takes any character; once it has taken a
      terminator it takes terminators only. The result is the number of
      characters taken, and the scan ends only at the end of `s` or at a
      non-terminator that follows a terminator. */
  function Scan(s: string, seenStop: bool): (k: nat)
    ensures k <= |s|
    ensures seenStop && k > 0 ==> IsStop(s[k - 1])
    ensures k == |s| || (!IsStop(s[k]) && (seenStop || (k > 0 && IsStop(s[k - 1]))))
  {
    if |s| == 0 then 0
    else if IsStop(s[0]) then 1 + Scan(s[1..], true)
    else if seenStop then 0
    else 1 + Scan(s[1..], false)
  }

  /** What the scanner takes has the shape `[^.!?]*[.!?]*`, and only
      terminators once one has been seen. */
  lemma {:induction false} ScanShape(s: string, seenStop: bool)
    ensures seenStop ==> AllStops(s[..Scan(s, seenStop)])
    ensures StopsTrail(s[..Scan(s, seenStop)])
    decreases |s|
  {
    if |s| > 0 && (IsStop(s[0]) || !seenStop) {
      var seen' := IsStop(s[0]);
      var t := s[1..];
      ScanShape(t, seen');
      var k := Scan(s, seenStop);
      assert s[..k] == [s[0]] + t[..k - 1];
    }
  }

  /** Every cut with those properties is the one the scanner finds. */
  lemma {:induction false} ScanUnique(s: string, seenStop: bool, m: nat)
    requires m <= |s|
    requires seenStop ==> AllStops(s[..m])
    requires StopsTrail(s[..m])
    requires m == |s| || (!IsStop(s[m]) && (seenStop || (m > 0 && IsStop(s[m - 1]))))
    ensures m == Scan(s, seenStop)
    decreases |s|
  {
    if |s| > 0 {
      var t := s[1..];
      if IsStop(s[0]) {
        assert m > 0;
        StopsFrom(s[..m]);
        assert t[..m - 1] == s[1..m];
        StopsTrailInfix(s[..m], 1, m);
        ScanUnique(t, true, m - 1);
      } else if !seenStop {
        assert m > 1 || m == |s|;
        assert t[..m - 1] == s[1..m];
        StopsTrailInfix(s[..m], 1, m);
        ScanUnique(t, false, m - 1);
      }
    }
  }

  /** Length of the greedy match of `[^.!?]+[.!?]*` at the start of `s`: it
      takes at least one character and stops only where a terminator run
      ends. */
  function MatchLength(s: string): (k: nat)
    requires |s| > 0 && !IsStop(s[0])
    ensures 0 < k <= |s|
    ensures k == |s| || (IsStop(s[k - 1]) && !IsStop(s[k]))
  {
    Scan(s, false)
  }

  /** The greedy match is a whole segment. */
  lemma MatchIsSegment(s: string)
    requires |s| > 0 && !IsStop(s[0])
    ensures IsSegment(s[..MatchLength(s)])
  {
    ScanShape(s, false);
  }

  /** The greedy match is the only cut of `s` into a leading segment that ends
      where a terminator run ends. */
  lemma MatchLengthUnique(s: string, m: nat)
    requires |s| > 0 && !IsStop(s[0])
    requires 0 < m <= |s| && StopsTrail(s[..m])
    requires m == |s| || (IsStop(s[m - 1]) && !IsStop(s[m]))
    ensures m == MatchLength(s)
  {
    ScanUnique(s, false, m);
  }

  /** Upper-cases the first character and lower-cases the rest
      (`charAt(0).toUpperCase() + slice(1).toLowerCase()`). */
  function Capitalize(t: string): (r: string)
    requires |t| > 0
    ensures |r| == |t|
  {
    [ToUpper(t[0])] + LowerAll(t[1..])
  }

  /** Capitalising yields sentence case and changes nothing but letter case. */
  lemma CapitalizeFacts(t: string)
    requires |t| > 0
    ensures SentenceCased(Capitalize(t))
    ensures forall i :: 0 <= i < |t| ==> ToLower(Capitalize(t)[i]) == ToLower(t[i])
    ensures forall i :: 0 <= i < |t| ==> IsWhitespace(Capitalize(t)[i]) == IsWhitespace(t[i])
    ensures forall i :: 0 <= i < |t| ==> IsStop(Capitalize(t)[i]) == IsStop(t[i])
  {
    var r := Capitalize(t);
    forall i | 0 <= i < |t|
      ensures ToLower(r[i]) == ToLower(t[i])
      ensures IsWhitespace(r[i]) == IsWhitespace(t[i]) && IsStop(r[i]) == IsStop(t[i])
    {
      CaseKeepsClass(t[i]);
      if i > 0 { assert r[i] == ToLower(t[i]); }
    }
  }

  /** A string already in sentence case is left alone. */
  lemma CapitalizeFixes(c: string)
    requires SentenceCased(c)
    ensures Capitalize(c) == c
  {
    var r := Capitalize(c);
    forall i | 0 <= i < |c| ensures r[i] == c[i] {
      if i > 0 { assert r[i] == LowerAll(c[1..])[i - 1]; }
    }
  }

  /** The replacement callback: trim the match; an empty result is dropped,
      anything else is capitalised and followed by one space. */
  function Rewrite(m: string): string {
    var t := Trim(m);
    if |t| == 0 then [] else Capitalize(t) + " "
  }

  /** The global replace: an unmatchable terminator is copied, otherwise the
      greedy match is rewritten and the scan resumes after it. */
  function ReplaceAll(s: string): string
    decreases |s|
  {
    if |s| == 0 then []
    else if IsStop(s[0]) then [s[0]] + ReplaceAll(s[1..])
    else
      var k := MatchLength(s);
      Rewrite(s[..k]) + ReplaceAll(s[k..])
  }

  /** `toSentenceCase`: the output has no surrounding whitespace, differs from
      the input only in letter case and whitespace, and is empty exactly when
      the input is empty or all whitespace. */
  function ToSentenceCase(text: string): (r: string)
    ensures Trimmed(r)
    ensures Skeleton(r) == Skeleton(text)
    ensures |r| == 0 <==> AllWhitespace(text)
  {
    var replaced := ReplaceAll(text);
    var r := Trim(replaced);
    SkeletonReplaceAll(text);
    SkeletonTrim(replaced);
    SkeletonEmpty(text);
    SkeletonEmpty(r);
    r
  }

  // ---------------------------------------------------------------------------
  // Only case and whitespace change

  lemma SkeletonCapitalize(t: string)
    requires |t| > 0
    ensures Skeleton(Capitalize(t)) == Skeleton(t)
  {
    CapitalizeFacts(t);
    SkeletonIgnoresCase(Capitalize(t), t);
  }

  lemma SkeletonRewrite(m: string)
    ensures Skeleton(Rewrite(m)) == Skeleton(m)
  {
    var t := Trim(m);
    SkeletonTrim(m);
    if |t| > 0 {
      SkeletonAppend(Capitalize(t), " ");
      SkeletonCapitalize(t);
    }
  }

  lemma {:induction false} SkeletonReplaceAll(s: string)
    ensures Skeleton(ReplaceAll(s)) == Skeleton(s)
    decreases |s|
  {
    if |s| > 0 {
      var k := if IsStop(s[0]) then 1 else MatchLength(s);
      assert s == s[..k] + s[k..];
      SkeletonAppend(s[..k], s[k..]);
      SkeletonReplaceAll(s[k..]);
      if IsStop(s[0]) {
        assert s[..k] == [s[0]];
        SkeletonAppend([s[0]], ReplaceAll(s[1..]));
      } else {
        SkeletonRewrite(s[..k]);
        SkeletonAppend(Rewrite(s[..k]), ReplaceAll(s[k..]));
      }
    }
  }

  // ---------------------------------------------------------------------------
  // Reference description: segments, sentences, single-space joins

  /** The matches of the expression in a string that does not start with a
      terminator. */
  function Segments(s: string): (gs: seq<string>)
    requires |s| == 0 || !IsStop(s[0])
    ensures IsSegmentation(s, gs)
    decreases |s|
  {
    if |s| == 0 then []
    else
      var k := MatchLength(s);
      MatchIsSegment(s);
      var rest := Segments(s[k..]);
      var gs := [s[..k]] + rest;
      assert gs[0] == s[..k] && gs[1..] == rest;
      assert s == s[..k] + s[k..];
      assert |rest| > 0 ==> s[..k][k - 1] == s[k - 1];
      gs
  }

  /** A string has exactly one segmentation: `Segments` is it. */
  lemma {:induction false} SegmentationUnique(s: string, gs: seq<string>)
    requires IsSegmentation(s, gs)
    ensures |s| == 0 || !IsStop(s[0])
    ensures gs == Segments(s)
    decreases |gs|
  {
    if |gs| > 0 {
      var g := gs[0];
      var m := |g|;
      var tail := Concat(gs[1..]);
      assert s == g + tail;
      assert s[..m] == g && s[m..] == tail;
      assert s[0] == g[0];
      if |gs| > 1 {
        assert gs[1..][0] == gs[1] && gs[1..][1..] == gs[2..];
        assert Segmented(gs[1..]);
        assert IsSegment(gs[1]);
        assert tail == gs[1] + Concat(gs[2..]);
        assert s[m] == gs[1][0];
        assert s[m - 1] == g[m - 1];
      } else {
        assert tail == [];
      }
      MatchLengthUnique(s, m);
      SegmentationUnique(tail, gs[1..]);
      assert Segments(s) == [s[..m]] + Segments(s[m..]);
    }
  }

  /** Each segment, trimmed; empty ones dropped, the rest capitalised. */
  function Sentences(gs: seq<string>): seq<string> {
    if |gs| == 0 then []
    else
      var t := Trim(gs[0]);
      (if |t| == 0 then [] else [Capitalize(t)]) + Sentences(gs[1..])
  }

  /** The strings of `cs` separated by exactly one space. */
  function JoinSpaced(cs: seq<string>): string {
    if |cs| == 0 then []
    else if |cs| == 1 then cs[0]
    else cs[0] + " " + JoinSpaced(cs[1..])
  }

  /** What an element of `Sentences` looks like. */
  predicate IsSentence(c: string) {
    |c| > 0 && Trimmed(c) && SentenceCased(c) && StopsTrail(c)
  }

  /** Every string is a sentence, and every one but the last ends in a
      terminator. */
  predicate SentenceList(cs: seq<string>) {
    |cs| == 0 ||
    (IsSentence(cs[0]) && (|cs| > 1 ==> EndsWithStop(cs[0])) && SentenceList(cs[1..]))
  }

  lemma StopsTrailInfix(g: string, a: nat, b: nat)
    requires a <= b <= |g| && StopsTrail(g)
    ensures StopsTrail(g[a..b])
  {
    var t := g[a..b];
    forall i | 0 < i < |t| && IsStop(t[i - 1]) ensures IsStop(t[i]) {
      assert t[i - 1] == g[a + i - 1] && t[i] == g[a + i];
    }
  }

  lemma StopsTrailCapitalize(t: string)
    requires |t| > 0 && StopsTrail(t)
    ensures StopsTrail(Capitalize(t))
  {
    var c := Capitalize(t);
    CapitalizeFacts(t);
    forall i | 0 < i < |c| && IsStop(c[i - 1]) ensures IsStop(c[i]) {
      assert IsStop(t[i - 1]);
    }
  }

  /** Trimming keeps a final terminator. */
  lemma TrimKeepsFinalStop(g: string)
    requires EndsWithStop(g)
    ensures EndsWithStop(Trim(g))
  {
    StopNotWhitespace(g[|g| - 1]);
    assert TrimEnd(g) == g;
    TrimStartDropsWhitespace(g);
  }

  /** A trimmed, capitalised segment is a sentence, and it still ends with
      the segment's terminators. */
  lemma SentenceOfSegment(g: string)
    requires IsSegment(g) && |Trim(g)| > 0
    ensures IsSentence(Capitalize(Trim(g)))
    ensures EndsWithStop(g) ==> EndsWithStop(Capitalize(Trim(g)))
  {
    var t := Trim(g);
    var a, b := TrimIsInfix(g);
    StopsTrailInfix(g, a, b);
    CapitalizeFacts(t);
    StopsTrailCapitalize(t);
    if EndsWithStop(g) {
      TrimKeepsFinalStop(g);
    }
  }

  lemma {:induction false} SentencesWellFormed(gs: seq<string>)
    requires Segmented(gs)
    ensures SentenceList(Sentences(gs))
    decreases |gs|
  {
    if |gs| > 0 {
      SentencesWellFormed(gs[1..]);
      var rest := Sentences(gs[1..]);
      assert |gs| == 1 ==> rest == [];
      var t := Trim(gs[0]);
      if |t| > 0 {
        SentenceOfSegment(gs[0]);
        var cs := [Capitalize(t)] + rest;
        assert cs[0] == Capitalize(t) && cs[1..] == rest;
      } else {
        assert Sentences(gs) == rest;
      }
    }
  }

  /** The callback's outputs, concatenated in order. */
  function RewriteAll(gs: seq<string>): string {
    if |gs| == 0 then [] else Rewrite(gs[0]) + RewriteAll(gs[1..])
  }

  /** Each string followed by one space. */
  function Spaced(cs: seq<string>): string {
    if |cs| == 0 then [] else cs[0] + " " + Spaced(cs[1..])
  }

  /** A terminator at the front is copied as it is. */
  lemma ReplaceAllStop(s: string)
    requires |s| > 0 && IsStop(s[0])
    ensures ReplaceAll(s) == [s[0]] + ReplaceAll(s[1..])
  {
  }

  /** A run of terminators in front is copied as it is. */
  lemma {:induction false} ReplaceAllStops(p: string, r: string)
    requires AllStops(p)
    ensures ReplaceAll(p + r) == p + ReplaceAll(r)
    decreases |p|
  {
    if |p| > 0 {
      var s := p + r;
      assert s[0] == p[0] && s[1..] == p[1..] + r;
      ReplaceAllStops(p[1..], r);
      ReplaceAllStop(s);
      AppendAssoc([p[0]], p[1..], ReplaceAll(r));
      assert [p[0]] + p[1..] == p;
    } else {
      assert p + r == r;
    }
  }

  lemma ReplaceAllLeadingStops(s: string)
    ensures ReplaceAll(s) == s[..StopRun(s)] + ReplaceAll(s[StopRun(s)..])
  {
    var n := StopRun(s);
    StopRunIsStops(s);
    assert s == s[..n] + s[n..];
    ReplaceAllStops(s[..n], s[n..]);
  }

  lemma {:induction false} ReplaceAllBySegments(s: string)
    requires |s| == 0 || !IsStop(s[0])
    ensures ReplaceAll(s) == RewriteAll(Segments(s))
    decreases |s|
  {
    if |s| > 0 {
      var k := MatchLength(s);
      ReplaceAllBySegments(s[k..]);
      assert Segments(s)[0] == s[..k];
      assert Segments(s)[1..] == Segments(s[k..]);
    }
  }

  lemma {:induction false} RewriteAllBySentences(gs: seq<string>)
    ensures RewriteAll(gs) == Spaced(Sentences(gs))
    decreases |gs|
  {
    if |gs| > 0 {
      RewriteAllBySentences(gs[1..]);
      var t := Trim(gs[0]);
      if |t| > 0 {
        var cs := [Capitalize(t)] + Sentences(gs[1..]);
        assert cs[0] == Capitalize(t) && cs[1..] == Sentences(gs[1..]);
      } else {
        assert Sentences(gs) == Sentences(gs[1..]);
      }
    }
  }

  lemma {:induction false} SpacedIsJoinSpaced(cs: seq<string>)
    requires |cs| > 0
    ensures Spaced(cs) == JoinSpaced(cs) + " "
    decreases |cs|
  {
    if |cs| > 1 {
      SpacedIsJoinSpaced(cs[1..]);
    }
  }

  /** Joining sentences gives a string without surrounding whitespace that
      starts with the first sentence. */
  lemma {:induction false} JoinSpacedTrimmed(cs: seq<string>)
    requires |cs| > 0 && SentenceList(cs)
    ensures |JoinSpaced(cs)| >= |cs[0]| > 0
    ensures JoinSpaced(cs)[..|cs[0]|] == cs[0]
    ensures Trimmed(JoinSpaced(cs))
    decreases |cs|
  {
    if |cs| > 1 {
      JoinSpacedTrimmed(cs[1..]);
      var j := JoinSpaced(cs[1..]);
      var whole := cs[0] + " " + j;
      assert JoinSpaced(cs) == whole;
      assert whole[|whole| - 1] == j[|j| - 1];
      assert whole[..|cs[0]|] == cs[0];
    }
  }

  /** Trimming the replaced text removes only the final separator space. */
  lemma TrimAfterStops(p: string, j: string)
    requires AllStops(p)
    requires |j| > 0 && Trimmed(j)
    ensures Trim(p + j + " ") == p + j
  {
    var u := p + j;
    assert Trimmed(u) by {
      assert u[|u| - 1] == j[|j| - 1];
      if |p| > 0 {
        assert u[0] == p[0] && IsStop(p[0]);
      } else {
        assert u[0] == j[0];
      }
    }
    TrimEndSpace(u);
    assert TrimStart(u) == u;
  }

  /** One trailing space comes off a trimmed string. */
  lemma TrimEndSpace(u: string)
    requires |u| > 0 && Trimmed(u)
    ensures TrimEnd(u + " ") == u
  {
    var s := u + " ";
    assert s[..|s| - 1] == u;
    assert TrimEnd(u) == u;
  }

  lemma TrimOfStops(p: string)
    requires AllStops(p)
    ensures Trim(p) == p
  {
    if |p| > 0 {
      assert !IsWhitespace(p[0]) && !IsWhitespace(p[|p| - 1]);
    }
    TrimOfTrimmed(p);
  }

  /** The output is the leading terminator run, untouched, followed by the
      sentences of the rest joined by single spaces. */
  lemma ToSentenceCaseBySegments(text: string)
    ensures var p := StopRun(text);
            ToSentenceCase(text) == text[..p] + JoinSpaced(Sentences(Segments(text[p..])))
  {
    var p := StopRun(text);
    var rest := text[p..];
    var gs := Segments(rest);
    var cs := Sentences(gs);
    StopRunIsStops(text);
    ReplaceAllLeadingStops(text);
    ReplaceAllBySegments(rest);
    RewriteAllBySentences(gs);
    assert ReplaceAll(text) == text[..p] + Spaced(cs);
    if |cs| == 0 {
      assert ReplaceAll(text) == text[..p];
      TrimOfStops(text[..p]);
    } else {
      SpacedIsJoinSpaced(cs);
      SentencesWellFormed(gs);
      JoinSpacedTrimmed(cs);
      AppendAssoc(text[..p], JoinSpaced(cs), " ");
      TrimAfterStops(text[..p], JoinSpaced(cs));
    }
  }

  // ---------------------------------------------------------------------------
  // Consequences

  /** Each sentence of the output is a trimmed segment of the input with its
      first character upper-cased and the others lower-cased, all but the last
      end in a terminator, and they are joined by exactly one space. */
  lemma SentencesOfOutput(text: string)
    ensures var p := StopRun(text);
            var cs := Sentences(Segments(text[p..]));
            && SentenceList(cs)
            && ToSentenceCase(text) == text[..p] + JoinSpaced(cs)
  {
    var p := StopRun(text);
    ToSentenceCaseBySegments(text);
    SentencesWellFormed(Segments(text[p..]));
  }

  /** A leading run of terminators is not matched: it is kept verbatim and the
      rest follows it with no space in between. */
  lemma LeadingStopsKept(text: string)
    ensures var p := StopRun(text);
            ToSentenceCase(text) == text[..p] + ToSentenceCase(text[p..])
  {
    var p := StopRun(text);
    var rest := text[p..];
    ToSentenceCaseBySegments(text);
    ToSentenceCaseBySegments(rest);
    assert StopRun(rest) == 0;
    assert rest[..0] == [] && rest[0..] == rest;
    var j := JoinSpaced(Sentences(Segments(rest)));
    assert [] + j == j;
  }

  /** Text without `.`, `!` or `?` is one sentence. */
  lemma NoStopsIsOneSentence(text: string)
    requires forall i :: 0 <= i < |text| ==> !IsStop(text[i])
    requires !AllWhitespace(text)
    ensures |Trim(text)| > 0
    ensures ToSentenceCase(text) == Capitalize(Trim(text))
  {
    SkeletonEmpty(text);
    SkeletonTrim(text);
    assert |Trim(text)| > 0;
    assert IsSegmentation(text, [text]) by {
      assert Concat([text]) == text + Concat([]);
      assert [text][1..] == [];
    }
    SegmentationUnique(text, [text]);
    ToSentenceCaseBySegments(text);
    assert StopRun(text) == 0;
    assert text[..0] == [] && text[0..] == text;
    assert Sentences([text]) == [Capitalize(Trim(text))] + Sentences([]);
  }

  /** A sentence is its segment with only surrounding whitespace removed:
      position by position it has the same whitespace and the same letters up
      to case, so whitespace inside a segment is kept. */
  lemma SentenceKeepsInside(g: string) returns (a: nat, b: nat)
    requires |Trim(g)| > 0
    ensures a < b <= |g|
    ensures AllWhitespace(g[..a]) && AllWhitespace(g[b..])
    ensures |Capitalize(Trim(g))| == b - a
    ensures forall i :: 0 <= i < b - a ==>
              IsWhitespace(Capitalize(Trim(g))[i]) == IsWhitespace(g[a + i])
    ensures forall i :: 0 <= i < b - a ==>
              ToLower(Capitalize(Trim(g))[i]) == ToLower(g[a + i])
  {
    a, b := TrimIsInfix(g);
    var t := Trim(g);
    var c := Capitalize(t);
    CapitalizeFacts(t);
    forall i | 0 <= i < b - a
      ensures IsWhitespace(c[i]) == IsWhitespace(g[a + i])
      ensures ToLower(c[i]) == ToLower(g[a + i])
    {
      assert t[i] == g[a + i];
    }
  }

  // ---------------------------------------------------------------------------
  // Idempotence

  /** The character after the leading terminator run, if any, is not
      whitespace. */
  predicate ResumesCleanly(s: string) {
    var p := StopRun(s);
    p == |s| || !IsWhitespace(s[p])
  }

  /** A fixed point of `ToSentenceCase` never has whitespace right after its
      leading terminator run: that whitespace would be trimmed away. */
  lemma FixpointResumesCleanly(s: string)
    ensures ToSentenceCase(s) == s ==> ResumesCleanly(s)
  {
    var p := StopRun(s);
    LeadingStopsKept(s);
    var x := ToSentenceCase(s[p..]);
    if ToSentenceCase(s) == s && p < |s| {
      assert |x| > 0;
      assert s[p] == x[0];
    }
  }

  lemma {:induction false} StopRunOfConcat(a: string, b: string)
    requires AllStops(a)
    requires |b| == 0 || !IsStop(b[0])
    ensures StopRun(a + b) == |a|
    decreases |a|
  {
    if |a| > 0 {
      assert (a + b)[0] == a[0];
      assert (a + b)[1..] == a[1..] + b;
      StopRunOfConcat(a[1..], b);
    } else {
      assert a + b == b;
    }
  }

  /** A string of that shape that starts with a terminator is all terminators. */
  lemma {:induction false} StopsFrom(s: string)
    requires StopsTrail(s) && |s| > 0 && IsStop(s[0])
    ensures AllStops(s)
    decreases |s|
  {
    if |s| > 1 {
      var t := s[1..];
      assert IsStop(t[0]);
      assert StopsTrail(t) by {
        forall i | 0 < i < |t| && IsStop(t[i - 1]) ensures IsStop(t[i]) {
          assert t[i - 1] == s[i] && t[i] == s[i + 1];
        }
      }
      StopsFrom(t);
      forall i | 0 <= i < |s| ensures IsStop(s[i]) {
        if i > 0 { assert s[i] == t[i - 1]; }
      }
    }
  }

  /** Each sentence with one separating space in front. */
  function Indent(ds: seq<string>): (gs: seq<string>)
    ensures |gs| == |ds|
  {
    if |ds| == 0 then [] else [[' '] + ds[0]] + Indent(ds[1..])
  }

  lemma SpacedIsSegment(c: string)
    requires IsSentence(c)
    ensures IsSegment([' '] + c)
    ensures Trim([' '] + c) == c
    ensures EndsWithStop(c) ==> EndsWithStop([' '] + c)
  {
    var g := [' '] + c;
    forall i | 0 < i < |g| && IsStop(g[i - 1]) ensures IsStop(g[i]) {
      assert g[i] == c[i - 1];
      if i > 1 { assert g[i - 1] == c[i - 2]; }
    }
    TrimSpaced(c);
  }

  /** Sentences preceded by one space spell out the joined text after a
      leading space. */
  lemma {:induction false} IndentConcat(ds: seq<string>)
    ensures Concat(Indent(ds)) == if |ds| == 0 then [] else " " + JoinSpaced(ds)
    decreases |ds|
  {
    if |ds| > 0 {
      IndentConcat(ds[1..]);
      var gs := Indent(ds);
      assert gs[0] == [' '] + ds[0] && gs[1..] == Indent(ds[1..]);
      if |ds| > 1 {
        var j := JoinSpaced(ds[1..]);
        calc {
          Concat(gs);
          ([' '] + ds[0]) + (" " + j);
          { AppendAssoc([' '] + ds[0], " ", j); }
          (([' '] + ds[0]) + " ") + j;
          { AppendAssoc([' '], ds[0], " "); }
          ([' '] + (ds[0] + " ")) + j;
          { AppendAssoc([' '], ds[0] + " ", j); }
          " " + JoinSpaced(ds);
        }
      } else {
        assert Concat(gs) == gs[0] + [];
      }
    }
  }

  /** Sentences preceded by one space are segments again. */
  lemma {:induction false} IndentSegmented(ds: seq<string>)
    requires SentenceList(ds)
    ensures Segmented(Indent(ds))
    decreases |ds|
  {
    if |ds| > 0 {
      IndentSegmented(ds[1..]);
      var gs := Indent(ds);
      assert gs[0] == [' '] + ds[0] && gs[1..] == Indent(ds[1..]);
      SpacedIsSegment(ds[0]);
    }
  }

  /** Sentences preceded by one space give back the same sentences. */
  lemma {:induction false} IndentSentences(ds: seq<string>)
    requires SentenceList(ds)
    ensures Sentences(Indent(ds)) == ds
    decreases |ds|
  {
    if |ds| > 0 {
      IndentSentences(ds[1..]);
      var g := [' '] + ds[0];
      var rest := Indent(ds[1..]);
      assert Indent(ds) == [g] + rest;
      SpacedIsSegment(ds[0]);
      CapitalizeFixes(ds[0]);
      SentencesCons(g, rest);
      ConsSplit(ds);
    }
  }

  /** A segment with something left after trimming contributes one sentence. */
  lemma SentencesCons(g: string, gs: seq<string>)
    requires |Trim(g)| > 0
    ensures Sentences([g] + gs) == [Capitalize(Trim(g))] + Sentences(gs)
  {
    var all := [g] + gs;
    assert all[0] == g && all[1..] == gs;
  }

  lemma PairConcat<T>(x: T, y: T)
    ensures [x] + [y] == [x, y]
  {
  }

  lemma ConsSplit<T>(xs: seq<T>)
    requires |xs| > 0
    ensures [xs[0]] + xs[1..] == xs
  {
  }

  /** Joined sentences, the first starting with a non-terminator, cut into
      the first sentence and then each later one after its separator space. */
  lemma RespaceSegmentation(cs: seq<string>)
    requires |cs| > 0 && SentenceList(cs) && !IsStop(cs[0][0])
    ensures IsSegmentation(JoinSpaced(cs), [cs[0]] + Indent(cs[1..]))
  {
    var rest := cs[1..];
    IndentConcat(rest);
    IndentSegmented(rest);
    var gs := [cs[0]] + Indent(rest);
    assert gs[0] == cs[0] && gs[1..] == Indent(rest);
    assert Concat(gs) == cs[0] + Concat(Indent(rest));
    if |rest| == 0 {
      assert Concat(gs) == cs[0] + [];
    } else {
      AppendAssoc(cs[0], " ", JoinSpaced(rest));
    }
  }

  /** That cut gives back the same sentences. */
  lemma RespaceSentences(cs: seq<string>)
    requires |cs| > 0 && SentenceList(cs)
    ensures Sentences([cs[0]] + Indent(cs[1..])) == cs
  {
    var rest := cs[1..];
    IndentSentences(rest);
    var gs := [cs[0]] + Indent(rest);
    assert gs[0] == cs[0] && gs[1..] == Indent(rest);
    TrimOfTrimmed(cs[0]);
    CapitalizeFixes(cs[0]);
    assert Sentences(gs) == [cs[0]] + Sentences(Indent(rest));
  }

  lemma AllStopsFixed(p: string)
    requires AllStops(p)
    ensures ToSentenceCase(p) == p
  {
    ToSentenceCaseBySegments(p);
    StopRunOfConcat(p, []);
    assert p + [] == p;
    assert p[..|p|] == p && p[|p|..] == [];
  }

  /** Applying `ToSentenceCase` to its own output changes nothing exactly when
      that output resumes cleanly after its leading terminators. */
  lemma ToSentenceCaseIdempotent(text: string)
    ensures var r := ToSentenceCase(text);
            ToSentenceCase(r) == r <==> ResumesCleanly(r)
  {
    var r := ToSentenceCase(text);
    FixpointResumesCleanly(r);
    if ResumesCleanly(r) {
      CleanOutputIsFixpoint(text);
    }
  }

  lemma CleanOutputIsFixpoint(text: string)
    requires ResumesCleanly(ToSentenceCase(text))
    ensures ToSentenceCase(ToSentenceCase(text)) == ToSentenceCase(text)
  {
    var p := StopRun(text);
    SentencesOfOutput(text);
    StopRunIsStops(text);
    JoinedIsFixpoint(text[..p], Sentences(Segments(text[p..])));
  }

  /** Terminators followed by joined sentences are left alone, provided no
      whitespace follows the leading terminator run. */
  lemma JoinedIsFixpoint(pre: string, cs: seq<string>)
    requires AllStops(pre) && SentenceList(cs)
    requires ResumesCleanly(pre + JoinSpaced(cs))
    ensures ToSentenceCase(pre + JoinSpaced(cs)) == pre + JoinSpaced(cs)
  {
    if |cs| == 0 {
      assert pre + JoinSpaced(cs) == pre;
      AllStopsFixed(pre);
    } else if IsStop(cs[0][0]) {
      StopLedJoin(pre, cs);
    } else {
      WordLedJoinIsFixpoint(pre, cs);
    }
  }

  /** When the first sentence starts with a terminator it consists of
      terminators only; then either it is the only sentence and the whole
      text is terminators, or a space follows it. */
  lemma StopLedJoin(pre: string, cs: seq<string>)
    requires AllStops(pre) && SentenceList(cs) && |cs| > 0 && IsStop(cs[0][0])
    requires ResumesCleanly(pre + JoinSpaced(cs))
    ensures ToSentenceCase(pre + JoinSpaced(cs)) == pre + JoinSpaced(cs)
  {
    var c0 := cs[0];
    StopsFrom(c0);
    if |cs| == 1 {
      var r := pre + c0;
      assert AllStops(r) by {
        forall i | 0 <= i < |r| ensures IsStop(r[i]) {
          if i >= |pre| { assert r[i] == c0[i - |pre|]; }
        }
      }
      AllStopsFixed(r);
    } else {
      StopLedJoinNotClean(pre, cs);
    }
  }

  /** Two or more sentences, the first all terminators: the separator space
      directly follows the leading terminator run. */
  lemma StopLedJoinNotClean(pre: string, cs: seq<string>)
    requires AllStops(pre) && |cs| > 1 && AllStops(cs[0])
    ensures !ResumesCleanly(pre + JoinSpaced(cs))
  {
    var c0 := cs[0];
    var tail := " " + JoinSpaced(cs[1..]);
    var head := pre + c0;
    assert AllStops(head) by {
      forall i | 0 <= i < |head| ensures IsStop(head[i]) {
        if i >= |pre| { assert head[i] == c0[i - |pre|]; }
      }
    }
    AppendAssoc(c0, " ", JoinSpaced(cs[1..]));
    AppendAssoc(pre, c0, tail);
    StopRunOfConcat(head, tail);
    assert (head + tail)[|head|] == ' ';
  }

  /** The first sentence starts with a letter or other non-terminator: the
      text cuts back into the same sentences. */
  lemma WordLedJoinIsFixpoint(pre: string, cs: seq<string>)
    requires AllStops(pre) && SentenceList(cs) && |cs| > 0 && !IsStop(cs[0][0])
    ensures ToSentenceCase(pre + JoinSpaced(cs)) == pre + JoinSpaced(cs)
  {
    var j := JoinSpaced(cs);
    var r := pre + j;
    JoinSpacedTrimmed(cs);
    assert j[0] == cs[0][0];
    StopRunOfConcat(pre, j);
    assert r[..|pre|] == pre && r[|pre|..] == j;
    ToSentenceCaseBySegments(r);
    RespaceSegmentation(cs);
    RespaceSentences(cs);
    SegmentationUnique(j, [cs[0]] + Indent(cs[1..]));
  }

  // ---------------------------------------------------------------------------
  // Examples

  /** One sentence without a terminator: its first letter is raised and the
      rest lowered. */
  lemma HelloWorldExample(text: string)
    requires text == "hELLO wORLD"
    ensures ToSentenceCase(text) == "Hello world"
  {
    assert forall i :: 0 <= i < |text| ==> !IsStop(text[i]);
    assert !IsWhitespace(text[0]) && !IsWhitespace(text[|text| - 1]);
    NoStopsIsOneSentence(text);
    TrimOfTrimmed(text);
    CapitalizeHello(text);
  }

  lemma CapitalizeHello(text: string)
    requires text == "hELLO wORLD"
    ensures Capitalize(text) == "Hello world"
  {
    var c := Capitalize(text);
    var want := "Hello world";
    forall i | 0 <= i < |text| ensures c[i] == want[i] {
      if i > 0 { assert c[i] == ToLower(text[i]); }
    }
  }

  predicate NoStops(s: string) {
    forall i :: 0 <= i < |s| ==> !IsStop(s[i])
  }

  /** Whitespace, then terminators, then a stretch without terminators: the
      whitespace is trimmed away but the space inserted after the terminators
      is kept, and a second application removes that space. So
      `ToSentenceCase` is not idempotent on every input. */
  lemma PaddedStopsNotIdempotent(w: string, p: string, x: string)
    requires |w| > 0 && AllWhitespace(w)
    requires |p| > 0 && AllStops(p)
    requires NoStops(x) && !AllWhitespace(x)
    ensures |Trim(x)| > 0
    ensures ToSentenceCase(w + p + x) == p + " " + Capitalize(Trim(x))
    ensures ToSentenceCase(ToSentenceCase(w + p + x)) != ToSentenceCase(w + p + x)
  {
    PaddedStopsOutput(w, p, x);
    var c := Capitalize(Trim(x));
    var r := p + " " + c;
    AppendAssoc(p, " ", c);
    StopRunOfConcat(p, " " + c);
    assert r[|p|] == ' ';
    FixpointResumesCleanly(r);
  }

  lemma PaddedStopsOutput(w: string, p: string, x: string)
    requires |w| > 0 && AllWhitespace(w)
    requires |p| > 0 && AllStops(p)
    requires NoStops(x) && !AllWhitespace(x)
    ensures |Trim(x)| > 0
    ensures ToSentenceCase(w + p + x) == p + " " + Capitalize(Trim(x))
  {
    var text := w + p + x;
    PaddedStopsSentences(w, p, x);
    var c := Capitalize(Trim(x));
    ToSentenceCaseBySegments(text);
    assert StopRun(text) == 0;
    assert text[..0] == [] && text[0..] == text;
    assert JoinSpaced([p, c]) == p + " " + JoinSpaced([c]);
  }

  /** The sentences of such a text: the terminators alone, then the
      capitalised rest. */
  lemma PaddedStopsSentences(w: string, p: string, x: string)
    requires |w| > 0 && AllWhitespace(w)
    requires |p| > 0 && AllStops(p)
    requires NoStops(x) && !AllWhitespace(x)
    ensures |Trim(x)| > 0
    ensures |w + p + x| > 0 && !IsStop((w + p + x)[0])
    ensures Sentences(Segments(w + p + x)) == [p, Capitalize(Trim(x))]
  {
    var gs := [w + p, x];
    PaddedStopsSegments(w, p, x);
    PaddedStopsSegment(w, p);
    NoStopsSegment(x);
    CapitalizeFixes(p);
    SentencesOfPair(w + p, x);
  }

  lemma SentencesOfPair(a: string, b: string)
    requires |Trim(a)| > 0 && |Trim(b)| > 0
    ensures Sentences([a, b]) == [Capitalize(Trim(a)), Capitalize(Trim(b))]
  {
    PairConcat(a, b);
    SentencesCons(a, [b]);
    SentencesOfOne(b);
    PairConcat(Capitalize(Trim(a)), Capitalize(Trim(b)));
  }

  lemma SentencesOfOne(b: string)
    requires |Trim(b)| > 0
    ensures Sentences([b]) == [Capitalize(Trim(b))]
  {
    assert [b][1..] == [];
    assert Sentences([b]) == [Capitalize(Trim(b))] + Sentences([]);
  }

  /** Such a text is cut after the terminators. */
  lemma PaddedStopsSegments(w: string, p: string, x: string)
    requires |w| > 0 && AllWhitespace(w)
    requires |p| > 0 && AllStops(p)
    requires NoStops(x) && !AllWhitespace(x)
    ensures |w + p + x| > 0 && !IsStop((w + p + x)[0])
    ensures Segments(w + p + x) == [w + p, x]
  {
    PaddedStopsSegment(w, p);
    NoStopsSegment(x);
    PairSegmentation(w + p, x);
    assert w + p + x == (w + p) + x;
    SegmentationUnique(w + p + x, [w + p, x]);
  }

  /** A segment ending in a terminator, then another segment. */
  lemma PairSegmentation(g: string, x: string)
    requires IsSegment(g) && EndsWithStop(g) && IsSegment(x)
    ensures IsSegmentation(g + x, [g, x])
  {
    var gs := [g, x];
    assert gs[1..] == [x] && [x][1..] == [];
    assert Concat([x]) == x + [];
    assert Concat(gs) == g + Concat([x]);
  }

  lemma PaddedStopsSegment(w: string, p: string)
    requires |w| > 0 && AllWhitespace(w)
    requires |p| > 0 && AllStops(p)
    ensures IsSegment(w + p) && EndsWithStop(w + p)
    ensures Trim(w + p) == p
    ensures SentenceCased(p)
  {
    PaddedShape(w, p);
    StopNotWhitespace(p[0]);
    StopNotWhitespace(p[|p| - 1]);
    PaddedTrim(w, p);
    StopsSentenceCased(p);
  }

  lemma PaddedShape(w: string, p: string)
    requires |w| > 0 && AllWhitespace(w)
    requires |p| > 0 && AllStops(p)
    ensures IsSegment(w + p) && EndsWithStop(w + p)
  {
    var g := w + p;
    forall i | 0 < i < |g| && IsStop(g[i - 1]) ensures IsStop(g[i]) {
      StopNotWhitespace(g[i - 1]);
      assert i > |w|;
      assert g[i] == p[i - |w|];
    }
    assert g[0] == w[0] && g[|g| - 1] == p[|p| - 1];
    StopNotWhitespace(w[0]);
  }

  /** Terminators have no case. */
  lemma StopsSentenceCased(p: string)
    requires |p| > 0 && AllStops(p)
    ensures SentenceCased(p)
  {
  }

  /** Trimming drops leading whitespace in front of a trimmed string. */
  lemma {:induction false} PaddedTrim(w: string, t: string)
    requires AllWhitespace(w) && |t| > 0 && Trimmed(t)
    ensures Trim(w + t) == t
    decreases |w|
  {
    var s := w + t;
    assert TrimEnd(s) == s by {
      assert s[|s| - 1] == t[|t| - 1];
    }
    if |w| == 0 {
      assert s == t;
      TrimOfTrimmed(t);
    } else {
      assert s[0] == w[0] && s[1..] == w[1..] + t;
      PaddedTrim(w[1..], t);
      assert TrimEnd(w[1..] + t) == w[1..] + t by {
        assert (w[1..] + t)[|w[1..] + t| - 1] == t[|t| - 1];
      }
    }
  }

  lemma NoStopsSegment(x: string)
    requires NoStops(x) && !AllWhitespace(x)
    ensures IsSegment(x)
    ensures |Trim(x)| > 0
  {
    SkeletonEmpty(x);
    SkeletonTrim(x);
  }

  /** The smallest such text: two spaces, three dots and a letter. */
  lemma IdempotenceCounterexample(text: string, once: string)
    requires text == "  ...x" && once == "... X"
    ensures ToSentenceCase(text) == once
    ensures ToSentenceCase(once) != once
  {
    var w, p, x := "  ", "...", "x";
    CounterexampleParts(text, once, w, p, x);
    PaddedStopsNotIdempotent(w, p, x);
  }

  lemma CounterexampleParts(text: string, once: string, w: string, p: string, x: string)
    requires text == "  ...x" && once == "... X"
    requires w == "  " && p == "..." && x == "x"
    ensures |w| > 0 && AllWhitespace(w)
    ensures |p| > 0 && AllStops(p)
    ensures NoStops(x) && !AllWhitespace(x)
    ensures text == w + p + x
    ensures |Trim(x)| > 0 && once == p + " " + Capitalize(Trim(x))
  {
    CounterexampleClasses(w, p, x);
    CounterexampleTrim(x);
    CounterexampleJoin(text, once, w, p, x);
  }

  lemma CounterexampleJoin(text: string, once: string, w: string, p: string, x: string)
    requires text == "  ...x" && once == "... X"
    requires w == "  " && p == "..." && x == "x"
    ensures text == w + p + x
    ensures once == p + " " + "X"
  {
  }

  lemma CounterexampleClasses(w: string, p: string, x: string)
    requires w == "  " && p == "..." && x == "x"
    ensures |w| > 0 && AllWhitespace(w)
    ensures |p| > 0 && AllStops(p)
    ensures NoStops(x) && !AllWhitespace(x)
  {
    assert !IsWhitespace(x[0]);
  }

  lemma CounterexampleTrim(x: string)
    requires x == "x"
    ensures Trim(x) == x && Capitalize(x) == "X"
  {
    assert !IsWhitespace(x[0]);
    TrimOfTrimmed(x);
  }

  /** Terminators in front of a stretch without terminators stay in front,
      with no space inserted. */
  lemma StopsThenWords(p: string, x: string)
    requires AllStops(p)
    requires NoStops(x) && !AllWhitespace(x)
    ensures |Trim(x)| > 0
    ensures ToSentenceCase(p + x) == p + Capitalize(Trim(x))
  {
    var text := p + x;
    NoStopsSegment(x);
    StopRunOfConcat(p, x);
    LeadingStopsKept(text);
    assert text[..|p|] == p && text[|p|..] == x;
    NoStopsIsOneSentence(x);
  }

  lemma LeadingStopsExample(text: string, out: string)
    requires text == "...hi" && out == "...Hi"
    ensures ToSentenceCase(text) == out
  {
    var p, x := "...", "hi";
    LeadingStopsParts(text, out, p, x);
    StopsThenWords(p, x);
  }

  lemma LeadingStopsParts(text: string, out: string, p: string, x: string)
    requires text == "...hi" && out == "...Hi"
    requires p == "..." && x == "hi"
    ensures AllStops(p) && NoStops(x) && !AllWhitespace(x)
    ensures text == p + x
    ensures |Trim(x)| > 0 && out == p + Capitalize(Trim(x))
  {
    assert !IsWhitespace(x[0]) && !IsWhitespace(x[1]);
    TrimOfTrimmed(x);
    assert Capitalize(x) == "Hi";
  }
}
