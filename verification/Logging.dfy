/** Two algorithms of the bundled logger: glob matching of file names and "every n-th time". */
module Logging {
  import opened Basics

  // ---------------------------------------------------------------- glob matching

  /** The characters of a C string before its terminator. */
  type CString = s: string | '\0' !in s

  /** `s[i]` in C, terminator included. */
  function At(s: CString, i: nat): (c: char)
    requires i <= |s|
    ensures c == '\0' <==> i == |s|
  {
    if i < |s| then s[i] else '\0'
  }

  /** The pieces of a string one pattern character stands for. */
  predicate Stands(token: char, piece: string) {
    if token == '*' then true
    else if token == '?' then |piece| == 1
    else piece == [token]
  }

  function Concat(pieces: seq<string>): string {
    if pieces == [] then "" else pieces[0] + Concat(pieces[1..])
  }

  predicate Splits(s: string, pattern: string, pieces: seq<string>) {
    && |pieces| == |pattern|
    && Concat(pieces) == s
    && forall i :: 0 <= i < |pattern| ==> Stands(pattern[i], pieces[i])
  }

  /** The string falls into consecutive pieces that the pattern's characters stand for. */
  ghost predicate Matches(s: string, pattern: string) {
    exists pieces :: Splits(s, pattern, pieces)
  }

  lemma MatchesEmpty(s: string)
    ensures Matches(s, "") <==> s == ""
  {
    assert s == "" ==> Splits(s, "", []);
  }

  lemma MatchesPrepend(k: nat, s: string, pattern: string)
    requires pattern != "" && k <= |s| && Stands(pattern[0], s[..k]) && Matches(s[k..], pattern[1..])
    ensures Matches(s, pattern)
  {
    var pieces :| Splits(s[k..], pattern[1..], pieces);
    var more := [s[..k]] + pieces;
    assert more[1..] == pieces;
    assert s == s[..k] + s[k..];
    forall i | 0 <= i < |pattern| ensures Stands(pattern[i], more[i]) {
      assert i > 0 ==> pattern[i] == pattern[1..][i - 1] && more[i] == pieces[i - 1];
    }
    assert Splits(s, pattern, more);
  }

  lemma MatchesHead(s: string, pattern: string) returns (k: nat)
    requires pattern != "" && Matches(s, pattern)
    ensures k <= |s| && Stands(pattern[0], s[..k]) && Matches(s[k..], pattern[1..])
  {
    var pieces :| Splits(s, pattern, pieces);
    k := |pieces[0]|;
    assert s == pieces[0] + Concat(pieces[1..]);
    assert s[..k] == pieces[0] && s[k..] == Concat(pieces[1..]);
    forall i | 0 <= i < |pattern[1..]| ensures Stands(pattern[1..][i], pieces[1..][i]) {
      assert Stands(pattern[i + 1], pieces[i + 1]);
    }
    assert Splits(s[k..], pattern[1..], pieces[1..]);
  }

  /** A character other than the star takes exactly one character. */
  lemma MatchesOne(s: string, pattern: string)
    requires pattern != "" && pattern[0] != '*'
    ensures Matches(s, pattern)
            <==> s != "" && (pattern[0] == '?' || s[0] == pattern[0]) && Matches(s[1..], pattern[1..])
  {
    if Matches(s, pattern) {
      var k := MatchesHead(s, pattern);
      assert k == 1 && s[..1] == [s[0]];
    }
    if s != "" && (pattern[0] == '?' || s[0] == pattern[0]) && Matches(s[1..], pattern[1..]) {
      assert s[..1] == [s[0]];
      MatchesPrepend(1, s, pattern);
    }
  }

  /** A star takes nothing, or one character and still stands. */
  lemma MatchesStar(s: string, pattern: string)
    requires pattern != "" && pattern[0] == '*'
    ensures Matches(s, pattern) <==> Matches(s, pattern[1..]) || (s != "" && Matches(s[1..], pattern))
  {
    if Matches(s, pattern) {
      var k := MatchesHead(s, pattern);
      if k == 0 {
        assert s[0..] == s;
      } else {
        assert s[1..][k - 1..] == s[k..];
        MatchesPrepend(k - 1, s[1..], pattern);
      }
    }
    if Matches(s, pattern[1..]) {
      assert s[0..] == s;
      MatchesPrepend(0, s, pattern);
    }
    if s != "" && Matches(s[1..], pattern) {
      var k := MatchesHead(s[1..], pattern);
      assert s[1..][k..] == s[k + 1..];
      MatchesPrepend(k + 1, s, pattern);
    }
  }

  method WildCardMatch(str: CString, pattern: CString) returns (r: bool)
    ensures r <==> Matches(str, pattern)
    decreases |pattern|, |str|
  {
    var i, j := 0, 0;
    assert str[0..] == str && pattern[0..] == pattern;
    while At(pattern, j) != '\0'
      invariant i <= |str| && j <= |pattern|
      invariant Matches(str, pattern) <==> Matches(str[i..], pattern[j..])
      decreases |pattern| - j
    {
      var token := At(pattern, j);
      assert pattern[j..][0] == token && pattern[j..][1..] == pattern[j + 1..];
      assert i < |str| ==> str[i..][0] == str[i] && str[i..][1..] == str[i + 1..];
      if token == '?' {
        MatchesOne(str[i..], pattern[j..]);
        if At(str, i) == '\0' {
          return false;
        }
        i, j := i + 1, j + 1;
      } else if token == '*' {
        MatchesStar(str[i..], pattern[j..]);
        r := WildCardMatch(str[i..], pattern[j + 1..]);
        if r {
          return true;
        }
        if At(str, i) != '\0' {
          r := WildCardMatch(str[i + 1..], pattern[j..]);
          if r {
            return true;
          }
        }
        return false;
      } else {
        MatchesOne(str[i..], pattern[j..]);
        if At(str, i) != token {
          return false;
        }
        i, j := i + 1, j + 1;
      }
    }
    assert pattern[j..] == "";
    MatchesEmpty(str[i..]);
    r := At(str, i) == '\0' && At(pattern, j) == '\0';
  }

  // ---------------------------------------------------------------- every n-th time

  const MAX_LOG_PER_COUNTER: nat := 100000

  /** The stored count after one more hit. */
  function NextCount(count: nat, n: nat): nat {
    (if count < MAX_LOG_PER_COUNTER then count else if n >= 1 then MAX_LOG_PER_COUNTER % n else 0) + 1
  }

  predicate IsHit(count: nat, n: nat) {
    n >= 1 && count != 0 && count % n == 0
  }

  /** Hit counters by place in the source, created on first use. */
  class RegisteredHitCounters {
    var hitCounts: map<(string, nat), nat>

    constructor ()
      ensures hitCounts == map[]
    {
      hitCounts := map[];
    }

    method ValidateEveryN(filename: string, line: nat, n: nat) returns (r: bool)
      modifies this
      ensures var before := if (filename, line) in old(hitCounts) then old(hitCounts)[(filename, line)] else 0;
              && hitCounts == old(hitCounts)[(filename, line) := NextCount(before, n)]
              && r == IsHit(NextCount(before, n), n)
    {
      var place := (filename, line);
      if place !in hitCounts {
        hitCounts := hitCounts[place := 0];
      }
      var count := hitCounts[place];
      if count >= MAX_LOG_PER_COUNTER {
        count := if n >= 1 then MAX_LOG_PER_COUNTER % n else 0;
      }
      count := count + 1;
      hitCounts := hitCounts[place := count];
      r := n >= 1 && count != 0 && count % n == 0;
    }
  }

  /** The count after `k` calls with the same `n`. */
  function CountAfter(n: nat, k: nat): nat {
    if k == 0 then 0 else NextCount(CountAfter(n, k - 1), n)
  }

  /** The `k`-th call reports a hit. */
  predicate Reports(n: nat, k: nat) {
    IsHit(CountAfter(n, k), n)
  }

  type Place = (string, nat)

  /** The counters after calls from many places, each with its own `n`. */
  function Counters(calls: seq<(Place, nat)>): map<Place, nat> {
    if calls == [] then map[]
    else
      var before, (place, n) := Counters(DropLast(calls)), Last(calls);
      before[place := NextCount(if place in before then before[place] else 0, n)]
  }

  function CallsFrom(calls: seq<(Place, nat)>, place: Place): nat {
    if calls == [] then 0 else CallsFrom(DropLast(calls), place) + (if Last(calls).0 == place then 1 else 0)
  }

  /** Places do not disturb each other: a place that always asks for the same `n` has the
      count of its own calls. */
  lemma {:induction false} PlacesAreIndependent(calls: seq<(Place, nat)>, place: Place, n: nat)
    requires forall i :: 0 <= i < |calls| && calls[i].0 == place ==> calls[i].1 == n
    ensures place in Counters(calls) <==> CallsFrom(calls, place) > 0
    ensures place in Counters(calls) ==> Counters(calls)[place] == CountAfter(n, CallsFrom(calls, place))
  {
    if calls != [] {
      assert Last(calls) == calls[|calls| - 1];
      PlacesAreIndependent(DropLast(calls), place, n);
    }
  }

  /** The reset keeps the count modulo `n`, and the count within its limit. */
  lemma {:induction false} CountKeepsRemainder(n: nat, k: nat)
    requires 1 <= n <= MAX_LOG_PER_COUNTER
    ensures CountAfter(n, k) % n == k % n && CountAfter(n, k) <= MAX_LOG_PER_COUNTER
    ensures k > 0 ==> CountAfter(n, k) > 0
  {
    if k > 0 {
      CountKeepsRemainder(n, k - 1);
      NextKeepsRemainder(CountAfter(n, k - 1), k - 1, n);
    }
  }

  lemma NextKeepsRemainder(count: nat, k: nat, n: nat)
    requires 1 <= n <= MAX_LOG_PER_COUNTER && count <= MAX_LOG_PER_COUNTER && count % n == k % n
    ensures NextCount(count, n) % n == (k + 1) % n && NextCount(count, n) <= MAX_LOG_PER_COUNTER
  {
    var start := if count < MAX_LOG_PER_COUNTER then count else count % n;
    if start != count {
      SmallRemainder(start, n);
    }
    assert start % n == k % n;
    SuccessorRemainder(start, k, n);
  }

  lemma SuccessorRemainder(a: nat, b: nat, n: nat)
    requires n >= 1 && a % n == b % n
    ensures (a + 1) % n == (b + 1) % n
  {
    Succ(a, n);
    Succ(b, n);
  }

  lemma Succ(a: nat, n: nat)
    requires n >= 1
    ensures (a + 1) % n == if a % n + 1 == n then 0 else a % n + 1
  {
    var q, r := a / n, a % n;
    if r + 1 == n {
      assert a + 1 == (q + 1) * n;
      Exact(q + 1, 0, n);
    } else {
      assert a + 1 == q * n + (r + 1);
      Exact(q, r + 1, n);
    }
  }

  lemma Exact(q: nat, r: nat, n: nat)
    requires r < n
    ensures (q * n + r) % n == r
  {
    var x := q * n + r;
    var d: int, m: int := x / n - q, n;
    assert x == (x / n) * m + x % n;
    assert d * m == r - x % n;
    assert d >= 1 ==> d * m >= m;
    assert -d >= 1 ==> -d * m >= m;
  }

  lemma {:induction false} CountBelowLimit(n: nat, k: nat)
    requires k <= MAX_LOG_PER_COUNTER
    ensures CountAfter(n, k) == k
  {
    if k > 0 {
      CountBelowLimit(n, k - 1);
    }
  }

  /** Beyond the limit the count sticks one above it. */
  lemma {:induction false} CountSticks(n: nat, k: nat)
    requires n > MAX_LOG_PER_COUNTER && k > MAX_LOG_PER_COUNTER
    ensures CountAfter(n, k) == MAX_LOG_PER_COUNTER + 1
  {
    if k == MAX_LOG_PER_COUNTER + 1 {
      CountBelowLimit(n, k - 1);
    } else {
      CountSticks(n, k - 1);
    }
    SmallRemainder(MAX_LOG_PER_COUNTER, n);
  }

  lemma SmallRemainder(a: nat, n: nat)
    requires a < n
    ensures a % n == a
  {
  }

  ghost predicate EveryNth(n: nat)
    requires n >= 1
  {
    forall k :: k >= 1 ==> (Reports(n, k) <==> k % n == 0)
  }

  /** Hits come at exactly the n-th, 2n-th, 3n-th call for every `n` up to the limit, and for
      no other: with a larger `n` the count gets stuck. With 0 there is never a hit. */
  lemma EveryNthExactly(n: nat)
    ensures n >= 1 ==> (EveryNth(n) <==> n <= MAX_LOG_PER_COUNTER)
    ensures n == 0 ==> forall k :: !Reports(n, k)
  {
    if 1 <= n <= MAX_LOG_PER_COUNTER {
      forall k | k >= 1 ensures Reports(n, k) <==> k % n == 0 {
        CountKeepsRemainder(n, k);
      }
    } else if n > MAX_LOG_PER_COUNTER {
      var k := if n == MAX_LOG_PER_COUNTER + 1 then n + 1 else n;
      CountSticks(n, k);
      if n == MAX_LOG_PER_COUNTER + 1 {
        Succ(n, n);
        Exact(1, 0, n);
      } else {
        SmallRemainder(MAX_LOG_PER_COUNTER + 1, n);
        Exact(1, 0, n);
      }
      assert Reports(n, k) != (k % n == 0);
    }
  }
}
