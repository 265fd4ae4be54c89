/**
 * The delimiter tokenizer `splitString` (agent_utils.cpp), the `std::string::find`
 * it is built on, and the join that undoes it.
 */
module Strings {
  import opened Wrappers

  /** `d` occurs in `s` starting at position `k`. */
  predicate OccursAt(s: string, d: string, k: nat) {
    k + |d| <= |s| && s[k..k + |d|] == d
  }

  ghost predicate Contains(s: string, d: string) {
    exists k: nat :: OccursAt(s, d, k)
  }

  /** `s.find(d, from)`: the first position at or after `from` where `d` occurs. */
  function Find(s: string, d: string, from: nat): (r: Option<nat>)
    ensures r.Some? ==> from <= r.value && r.value + |d| <= |s|
    decreases |s| - from
  {
    if from + |d| > |s| then None
    else if s[from..from + |d|] == d then Some(from)
    else Find(s, d, from + 1)
  }

  /** `find` answers the first occurrence at or after `from`, and nothing only when there is none. */
  lemma {:induction false} FindSpec(s: string, d: string, from: nat)
    ensures var r := Find(s, d, from);
      && (r.Some? ==> OccursAt(s, d, r.value))
      && (r.Some? ==> forall k: nat :: from <= k < r.value ==> !OccursAt(s, d, k))
      && (r.None? ==> forall k: nat :: from <= k ==> !OccursAt(s, d, k))
    decreases |s| - from
  {
    if from + |d| <= |s| && s[from..from + |d|] != d {
      FindSpec(s, d, from + 1);
    }
  }

  /**
   * The tokens `splitString(s, d)` returns, defined on the text still to be
   * scanned: everything before the first delimiter, then the split of the rest.
   */
  function Split(s: string, d: string): (tokens: seq<string>)
    requires |d| > 0
    ensures |tokens| > 0
    decreases |s|
  {
    match Find(s, d, 0)
    case None => [s]
    case Some(e) => [s[..e]] + Split(s[e + |d|..], d)
  }

  /** The tokens glued back together with `d` between neighbours. */
  function Join(tokens: seq<string>, d: string): string {
    if |tokens| == 0 then ""
    else if |tokens| == 1 then tokens[0]
    else tokens[0] + d + Join(tokens[1..], d)
  }

  function CountChar(s: string, c: char): nat {
    if s == [] then 0 else (if s[0] == c then 1 else 0) + CountChar(s[1..], c)
  }

  /**
   * The loop of `splitString`: scan with `find` from `start`, emit the text
   * before each delimiter, continue after it, and emit the remainder.
   */
  method SplitString(s: string, d: string) returns (tokens: seq<string>)
    requires |d| > 0
    ensures tokens == Split(s, d)
  {
    tokens := [];
    var start := 0;
    var end := Find(s, d, start);
    assert s[start..] == s;
    while end.Some?
      invariant start <= |s|
      invariant end == Find(s, d, start)
      invariant tokens + Split(s[start..], d) == Split(s, d)
      decreases |s| - start
    {
      var e := end.value;
      var token := s[start..e];
      ghost var whole := tokens + Split(s[start..], d);
      SplitStep(s, d, start, e + |d|, tokens, token);
      tokens := tokens + [token];
      start := e + |d|;
      assert tokens + Split(s[start..], d) == whole;
      end := Find(s, d, start);
    }
    SplitFrom(s, d, start);
    assert Split(s[start..], d) == [s[start..]];
    tokens := tokens + [s[start..]];
  }

  /** One loop iteration keeps the tokens emitted plus the split of the unscanned suffix unchanged. */
  lemma SplitStep(s: string, d: string, start: nat, next: nat, tokens: seq<string>, token: string)
    requires |d| > 0 && start <= |s|
    requires Find(s, d, start).Some? && token == s[start..Find(s, d, start).value]
    requires next == Find(s, d, start).value + |d|
    ensures next <= |s|
    ensures (tokens + [token]) + Split(s[next..], d) == tokens + Split(s[start..], d)
  {
    SplitFrom(s, d, start);
    var rest := Split(s[next..], d);
    assert (tokens + [token]) + rest == tokens + ([token] + rest);
  }

  /** One step of the scan: the split of the suffix at `start`, told by `find` from `start`. */
  lemma SplitFrom(s: string, d: string, start: nat)
    requires |d| > 0 && start <= |s|
    ensures Find(s, d, start).None? ==> Split(s[start..], d) == [s[start..]]
    ensures Find(s, d, start).Some? ==>
              var e := Find(s, d, start).value;
              Split(s[start..], d) == [s[start..e]] + Split(s[e + |d|..], d)
  {
    FindShift(s, d, start);
    var suffix := s[start..];
    var r := Find(s, d, start);
    if r.Some? {
      var e := r.value;
      assert Find(suffix, d, 0) == Some(e - start);
      assert suffix[..e - start] == s[start..e];
      assert suffix[e - start + |d|..] == s[e + |d|..];
    } else {
      assert Find(suffix, d, 0).None?;
    }
  }

  lemma OccursShift(s: string, d: string, start: nat, k: nat)
    requires start <= |s|
    ensures OccursAt(s[start..], d, k) <==> OccursAt(s, d, start + k)
  {
    if start + k + |d| <= |s| {
      assert s[start..][k..k + |d|] == s[start + k..start + k + |d|];
    }
  }

  /** Searching from `start` is searching the suffix, shifted by `start`. */
  lemma FindShift(s: string, d: string, start: nat)
    requires start <= |s|
    ensures Find(s, d, start).None? <==> Find(s[start..], d, 0).None?
    ensures Find(s, d, start).Some? ==>
              Find(s, d, start).value == start + Find(s[start..], d, 0).value
  {
    var r := Find(s, d, start);
    FindSpec(s, d, start);
    FindSpec(s[start..], d, 0);
    if r.Some? {
      var e := r.value - start;
      OccursShift(s, d, start, e);
      forall k: nat | k < e ensures !OccursAt(s[start..], d, k) {
        OccursShift(s, d, start, k);
      }
      var r' := Find(s[start..], d, 0);
      if r'.Some? {
        OccursShift(s, d, start, r'.value);
      }
    } else {
      forall k: nat ensures !OccursAt(s[start..], d, k) {
        OccursShift(s, d, start, k);
      }
    }
  }

  /** Joining the tokens of `splitString` with the delimiter gives back the input. */
  lemma {:induction false} JoinSplit(s: string, d: string)
    requires |d| > 0
    ensures Join(Split(s, d), d) == s
    decreases |s|
  {
    match Find(s, d, 0)
    case None =>
    case Some(e) =>
      var rest := s[e + |d|..];
      JoinSplit(rest, d);
      FindSpec(s, d, 0);
      assert s == s[..e] + d + rest;
  }

  /** No token of `splitString` contains the delimiter. */
  lemma {:induction false} SplitTokensFree(s: string, d: string)
    requires |d| > 0
    ensures forall i :: 0 <= i < |Split(s, d)| ==> !Contains(Split(s, d)[i], d)
    decreases |s|
  {
    FindSpec(s, d, 0);
    match Find(s, d, 0)
    case None =>
      assert Split(s, d) == [s];
    case Some(e) =>
      var rest := s[e + |d|..];
      SplitTokensFree(rest, d);
      var first := s[..e];
      forall k: nat ensures !OccursAt(first, d, k) {
        if k + |d| <= e {
          assert first[k..k + |d|] == s[k..k + |d|];
          assert !OccursAt(s, d, k);
        }
      }
      assert Split(s, d) == [first] + Split(rest, d);
  }

  /** A one-character delimiter splits `s` into one more token than it occurs. */
  lemma {:induction false} SplitCount(s: string, d: string)
    requires |d| == 1
    ensures |Split(s, d)| == CountChar(s, d[0]) + 1
    decreases |s|
  {
    FindSpec(s, d, 0);
    match Find(s, d, 0)
    case None =>
      NoOccurrenceNoCount(s, d);
    case Some(e) =>
      var rest := s[e + 1..];
      SplitCount(rest, d);
      forall k: nat ensures !OccursAt(s[..e], d, k) {
        if k + 1 <= e {
          assert s[..e][k..k + 1] == s[k..k + 1];
          assert !OccursAt(s, d, k);
        }
      }
      NoOccurrenceNoCount(s[..e], d);
      assert s == s[..e] + ([s[e]] + rest);
      CountCharAppend(s[..e], [s[e]] + rest, d[0]);
      assert ([s[e]] + rest)[1..] == rest;
      assert s[e..e + 1] == d;
  }

  lemma {:induction false} NoOccurrenceNoCount(s: string, d: string)
    requires |d| == 1
    requires forall k: nat :: !OccursAt(s, d, k)
    ensures CountChar(s, d[0]) == 0
  {
    if s != [] {
      assert s[0..1] == [s[0]];
      assert !OccursAt(s, d, 0);
      forall k: nat ensures !OccursAt(s[1..], d, k) {
        assert !OccursAt(s, d, k + 1);
        OccursShift(s, d, 1, k);
      }
      NoOccurrenceNoCount(s[1..], d);
    }
  }

  lemma {:induction false} CountCharAppend(a: string, b: string, c: char)
    ensures CountChar(a + b, c) == CountChar(a, c) + CountChar(b, c)
  {
    if a != [] {
      assert (a + b)[1..] == a[1..] + b;
      CountCharAppend(a[1..], b, c);
    } else {
      assert a + b == b;
    }
  }

  /** With at least two tokens, the split string is found to contain the delimiter, and back. */
  lemma SplitFindsDelimiter(s: string, d: string)
    requires |d| > 0
    ensures |Split(s, d)| > 1 <==> Contains(s, d)
  {
    FindSpec(s, d, 0);
    match Find(s, d, 0)
    case None =>
    case Some(e) =>
      assert OccursAt(s, d, e);
  }

  /**
   * For a one-character delimiter, splitting inverts joining: tokens that do not
   * contain the delimiter come back one for one.
   */
  lemma {:induction false} SplitJoin(tokens: seq<string>, d: string)
    requires |d| == 1 && |tokens| > 0
    requires forall i :: 0 <= i < |tokens| ==> !Contains(tokens[i], d)
    ensures Split(Join(tokens, d), d) == tokens
  {
    var first := tokens[0];
    if |tokens| == 1 {
      assert !Contains(first, d);
      FindSpec(first, d, 0);
    } else {
      var rest := Join(tokens[1..], d);
      var s := first + d + rest;
      assert OccursAt(s, d, |first|) by {
        assert s[|first|..|first| + 1] == d;
      }
      forall k: nat | k < |first|
        ensures !OccursAt(s, d, k)
      {
        assert s[k..k + 1] == first[k..k + 1];
        assert !OccursAt(first, d, k);
      }
      FindSpec(s, d, 0);
      assert Find(s, d, 0) == Some(|first|);
      assert s[..|first|] == first;
      assert s[|first| + 1..] == rest;
      SplitJoin(tokens[1..], d);
      assert tokens == [first] + tokens[1..];
    }
  }

  /** A one-character delimiter occurs exactly when that character is in the string. */
  lemma ContainsChar(s: string, c: char)
    ensures Contains(s, [c]) <==> c in s
  {
    if c in s {
      var i :| 0 <= i < |s| && s[i] == c;
      assert s[i..i + 1] == [c];
      assert OccursAt(s, [c], i);
    }
    if Contains(s, [c]) {
      var k: nat :| OccursAt(s, [c], k);
      assert s[k] == s[k..k + 1][0];
    }
  }

  /** Joining one more token appends the delimiter and that token. */
  lemma {:induction false} JoinAppend(tokens: seq<string>, t: string, d: string)
    requires |tokens| > 0
    ensures Join(tokens + [t], d) == Join(tokens, d) + d + t
    decreases |tokens|
  {
    if |tokens| > 1 {
      assert (tokens + [t])[1..] == tokens[1..] + [t];
      JoinAppend(tokens[1..], t, d);
    }
  }

  /** With two or more tokens, the first token is the text before the first delimiter. */
  lemma SplitFirst(s: string, d: string)
    requires |d| > 0 && |Split(s, d)| > 1
    ensures Split(s, d)[0] + d <= s
    ensures !Contains(Split(s, d)[0], d)
  {
    FindSpec(s, d, 0);
    SplitTokensFree(s, d);
    assert Find(s, d, 0).Some?;
    var e := Find(s, d, 0).value;
    assert Split(s, d)[0] == s[..e];
    assert s[..e] + d == s[..e + |d|];
  }
}
