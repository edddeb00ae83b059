/** Round-robin over providers by an atomic ticket counter. */
module Providers {
  import opened Types
  import opened Numbers

  /** The provider of the `k`-th call, in the order in which the atomic steps happen. Which thread makes the
      call does not matter: the `k`-th step finds the counter at `k` modulo its width. */
  function ProviderOf(k: nat, n: nat): (p: nat)
    requires n > 0
    ensures p < n
  {
    (k % TWO_64) % n
  }

  class MultiProvider<P> {
    const providers: seq<P>
    const urls: seq<string>
    var counter: U64
    ghost var calls: nat  // how many calls were made, on all threads

    ghost predicate Valid()
      reads this
    {
      |urls| == |providers| && counter == calls % TWO_64
    }

    constructor (urls: seq<string>, connect: string -> P)
      ensures Valid() && calls == 0 && this.urls == urls
      ensures forall k :: 0 <= k < |urls| ==> providers[k] == connect(urls[k])
    {
      providers := seq(|urls|, k requires 0 <= k < |urls| => connect(urls[k]));
      this.urls := urls;
      counter := 0;
      calls := 0;
    }

    /** One atomic step: take a ticket, and use the provider it points at. Without providers the ticket is
        taken and the call panics, for which `None` stands. */
    method Next() returns (r: Option<(P, string)>)
      requires Valid()
      modifies this
      ensures Valid() && calls == old(calls) + 1
      ensures r == if providers == [] then None
                   else var i := ProviderOf(old(calls), |providers|); Some((providers[i], urls[i]))
    {
      var ticket := counter;
      NextTicket(calls);
      counter := (counter + 1) % TWO_64;
      calls := calls + 1;
      if |providers| == 0 {
        return None;
      }
      var index := ticket % |providers|;
      return Some((providers[index], urls[index]));
    }
  }

  lemma NextTicket(calls: nat)
    ensures (calls % TWO_64 + 1) % TWO_64 == (calls + 1) % TWO_64
  {
    ModAdd(calls, 1, TWO_64);
  }

  /** The providers take turns from the first on, until the counter has run through its range; then it starts
      anew. */
  lemma ProvidersTakeTurns(k: nat, n: nat)
    requires n > 0
    ensures k < TWO_64 ==> ProviderOf(k, n) == k % n
    ensures ProviderOf(k + TWO_64, n) == ProviderOf(k, n)
  {
  }

  /** How many of the `count` calls from call `start` on use provider `i`. */
  function Uses(i: nat, start: nat, count: nat, n: nat): nat
    requires n > 0
  {
    if count == 0 then 0
    else Uses(i, start, count - 1, n) + if ProviderOf(start + count - 1, n) == i then 1 else 0
  }

  /** In a window of consecutive calls no provider is used more than once more than another. */
  ghost predicate Balanced(start: nat, count: nat, n: nat)
    requires n > 0
  {
    forall i: nat, j: nat :: i < n && j < n ==> Uses(i, start, count, n) <= Uses(j, start, count, n) + 1
  }

  /** `start + count` without a gap in the remainders: the counter does not wrap inside the window, or
      wrapping does not show. */
  ghost predicate Seamless(start: nat, count: nat, n: nat)
    requires n > 0
  {
    forall k: nat :: start <= k < start + count ==> ProviderOf(k, n) == (ProviderOf(start, n) + (k - start)) % n
  }

  lemma ModStep(x: nat, n: nat)
    requires n > 0
    ensures (x + 1) % n == if x % n == n - 1 then 0 else x % n + 1
    ensures (x + 1) / n == if x % n == n - 1 then x / n + 1 else x / n
  {
    var q, r := x / n, x % n;
    assert x == n * q + r;
    if r == n - 1 {
      assert x + 1 == n * (q + 1) + 0;
      QuotientIs(x + 1, n, q + 1, 0);
    } else {
      QuotientIs(x + 1, n, q, r + 1);
    }
  }

  /** How far provider `i` is ahead of provider `p` in the cycle. */
  function Ahead(i: nat, p: nat, n: nat): nat
    requires i < n && p < n
  {
    if i >= p then i - p else i + n - p
  }

  lemma NthProvider(p: nat, m: nat, n: nat)
    requires p < n
    ensures (p + m) % n == if p + m % n < n then p + m % n else p + m % n - n
  {
    assert p + m == n * (m / n) + (p + m % n);
    if p + m % n < n {
      QuotientIs(p + m, n, m / n, p + m % n);
    } else {
      assert p + m == n * (m / n + 1) + (p + m % n - n);
      QuotientIs(p + m, n, m / n + 1, p + m % n - n);
    }
  }

  /** A provider's turn comes when the cycle has advanced as far as it is ahead. */
  lemma TurnAt(i: nat, p: nat, m: nat, n: nat)
    requires i < n && p < n
    ensures (p + m) % n == i <==> Ahead(i, p, n) == m % n
  {
    NthProvider(p, m, n);
  }

  /** The uses in `count` turns of the provider that comes `ahead` turns after the first. */
  function Rounds(count: nat, ahead: nat, n: nat): nat
    requires n > 0
  {
    count / n + if ahead < count % n then 1 else 0
  }

  lemma RoundsStep(m: nat, ahead: nat, n: nat)
    requires ahead < n
    ensures Rounds(m + 1, ahead, n) == Rounds(m, ahead, n) + if ahead == m % n then 1 else 0
  {
    ModStep(m, n);
  }

  /** A seamless window uses every provider once per full round, and the first ones once more. */
  lemma {:induction false} SeamlessUses(i: nat, start: nat, count: nat, n: nat)
    requires n > 0 && i < n && Seamless(start, count, n)
    ensures Uses(i, start, count, n) == Rounds(count, Ahead(i, ProviderOf(start, n), n), n)
    decreases count
  {
    if count == 0 {
      assert 0 / n == 0 && 0 % n == 0;
    } else {
      var p := ProviderOf(start, n);
      SeamlessUses(i, start, count - 1, n);
      assert ProviderOf(start + (count - 1), n) == (p + (count - 1)) % n;
      TurnAt(i, p, count - 1, n);
      RoundsStep(count - 1, Ahead(i, p, n), n);
    }
  }

  lemma UsesStep(i: nat, start: nat, m: nat, n: nat)
    requires n > 0
    ensures Uses(i, start, m + 1, n) == Uses(i, start, m, n) + if ProviderOf(start + m, n) == i then 1 else 0
  {
  }

  lemma SeamlessIsBalanced(start: nat, count: nat, n: nat)
    requires n > 0 && Seamless(start, count, n)
    ensures Balanced(start, count, n)
  {
    forall i: nat, j: nat | i < n && j < n ensures Uses(i, start, count, n) <= Uses(j, start, count, n) + 1 {
      SeamlessUses(i, start, count, n);
      SeamlessUses(j, start, count, n);
    }
  }

  /** Before the counter wraps, every window is balanced, for any number of providers. */
  lemma {:induction false} WindowBeforeWrapIsBalanced(start: nat, count: nat, n: nat)
    requires n > 0 && start % TWO_64 + count <= TWO_64
    ensures Balanced(start, count, n)
  {
    var base := start % TWO_64;
    forall k: nat | start <= k < start + count
      ensures ProviderOf(k, n) == (ProviderOf(start, n) + (k - start)) % n
    {
      ModAdd(start, k - start, TWO_64);
      assert k % TWO_64 == base + (k - start);
      ModAdd(base, k - start, n);
    }
    SeamlessIsBalanced(start, count, n);
  }

  lemma DivisorHidesWrap(k: nat, n: nat)
    requires n > 0 && TWO_64 % n == 0
    ensures ProviderOf(k, n) == k % n
  {
    var q, r, d := k / TWO_64, k % TWO_64, TWO_64 / n;
    assert k == TWO_64 * q + r && TWO_64 == n * d;
    var a := r / n;
    assert r == n * a + r % n;
    assert k == n * (d * q + a) + r % n by {
      assert TWO_64 * q == n * (d * q);
    }
    QuotientIs(k, n, d * q + a, r % n);
  }

  lemma SmallTicket(k: nat, n: nat)
    requires n > 0 && k < TWO_64
    ensures ProviderOf(k, n) == k % n
  {
  }

  /** The tickets before the wrap that do not fill a round. */
  lemma LastTickets(n: nat)
    requires n > 0 && TWO_64 % n != 0
    ensures var r := TWO_64 % n;
            && r < n
            && ProviderOf(TWO_64 - r, n) == 0
            && Seamless(TWO_64 - r, r, n)
  {
    var r := TWO_64 % n;
    var start := TWO_64 - r;
    FullRounds(TWO_64, n);
    SmallTicket(start, n);
    forall k: nat | start <= k < start + r
      ensures ProviderOf(k, n) == (ProviderOf(start, n) + (k - start)) % n
    {
      SmallTicket(k, n);
      ModAdd(start, k - start, n);
    }
  }

  lemma FullRounds(m: nat, n: nat)
    requires n > 0
    ensures (m - m % n) % n == 0
  {
    assert m - m % n == n * (m / n) + 0;
    QuotientIs(m - m % n, n, m / n, 0);
  }

  /** A window across the wrap that uses provider 0 twice and the last provider not at all. */
  lemma WrapUnbalances(n: nat)
    requires n > 0 && TWO_64 % n != 0
    ensures !Balanced(TWO_64 - TWO_64 % n, TWO_64 % n + 1, n)
  {
    var r := TWO_64 % n;
    var start := TWO_64 - r;
    LastTickets(n);
    SeamlessUses(0, start, r, n);
    SeamlessUses(n - 1, start, r, n);
    assert r == n * 0 + r;
    QuotientIs(r, n, 0, r);
    assert ProviderOf(start + r, n) == 0;
    UsesStep(0, start, r, n);
    UsesStep(n - 1, start, r, n);
    assert Uses(0, start, r + 1, n) == 2 && Uses(n - 1, start, r + 1, n) == 0;
  }

  /** All windows, for ever: balanced exactly if the number of providers divides the counter's range. */
  lemma AlwaysBalancedExactly(n: nat)
    requires n > 0
    ensures (forall start: nat, count: nat :: Balanced(start, count, n)) <==> TWO_64 % n == 0
  {
    if TWO_64 % n == 0 {
      forall start: nat, count: nat ensures Balanced(start, count, n) {
        forall k: nat | start <= k < start + count
          ensures ProviderOf(k, n) == (ProviderOf(start, n) + (k - start)) % n
        {
          DivisorHidesWrap(k, n);
          DivisorHidesWrap(start, n);
          ModAdd(start, k - start, n);
        }
        SeamlessIsBalanced(start, count, n);
      }
    } else {
      WrapUnbalances(n);
    }
  }
}
