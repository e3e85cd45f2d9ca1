/** Reading a list the server hands out in pages. */
module Paging {
  import opened Outcomes

  /** One reply: a batch, the overall total, and the handle to resume from. */
  datatype Reply<T> = Reply(batch: seq<T>, total: Option<nat>, resume: Option<nat>)

  function OrZero(n: Option<nat>): nat {
    if n.Some? then n.value else 0
  }

  /** The three ways a server says "that was all": no progress, no new handle, the total reached. */
  predicate IsLast<T>(r: Reply<T>, resume: nat, found: nat) {
    r.batch == [] || r.resume.None? || r.resume.value == 0 || r.resume.value == resume || found >= OrZero(r.total)
  }

  /** What each call of a run answers, by its number; a server may answer anything. */
  type Server<!T> = nat -> Reply<T>

  /** Everything in the first `n` replies. */
  function Gathered<T>(server: Server<T>, n: nat): seq<T> {
    if n == 0 then [] else Gathered(server, n - 1) + server(n - 1).batch
  }

  /** The handle sent with call `n`. */
  function HandleAt<T>(server: Server<T>, n: nat): nat {
    if n == 0 then 0 else OrZero(server(n - 1).resume)
  }

  /** Call `n` is the one the loop stops after. */
  predicate StopsAt<T>(server: Server<T>, n: nat) {
    IsLast(server(n), HandleAt(server, n), |Gathered(server, n + 1)|)
  }

  /** Reply `n` is worth another call: it brought something, a handle other than the one sent,
      and a total above what has been gathered by then. */
  predicate GoesOn<T>(server: Server<T>, n: nat) {
    var reply := server(n);
    && |reply.batch| > 0
    && reply.resume.Some? && reply.resume.value !in {0, HandleAt(server, n)}
    && reply.total.Some? && reply.total.value > |Gathered(server, n + 1)|
  }

  /** No reply claims a total above `limit`. */
  ghost predicate TotalsBounded<T>(server: Server<T>, limit: nat) {
    forall n: nat :: OrZero(server(n).total) <= limit
  }

  /** The paging loop: ask, gather, and follow the handle until one of the three signs. Against
      a server whose totals never exceed `limit` it makes at most max(limit, 1) calls. */
  method Enumerate<T>(server: Server<T>, ghost limit: nat) returns (found: seq<T>, calls: nat)
    requires TotalsBounded(server, limit)
    ensures 1 <= calls <= if limit == 0 then 1 else limit
    ensures found == Gathered(server, calls)
    ensures StopsAt(server, calls - 1) && forall k :: 0 <= k < calls - 1 ==> !StopsAt(server, k)
    ensures !GoesOn(server, calls - 1) && forall k :: 0 <= k < calls - 1 ==> GoesOn(server, k)
  {
    found, calls := [], 0;
    var resume := 0;
    while true
      invariant found == Gathered(server, calls) && resume == HandleAt(server, calls)
      invariant calls <= |found| && (calls > 0 ==> |found| < limit)
      invariant forall k :: 0 <= k < calls ==> !StopsAt(server, k) && GoesOn(server, k)
      decreases limit - |found|
    {
      var reply := server(calls);
      found := found + reply.batch;
      calls := calls + 1;
      if IsLast(reply, resume, |found|) { return; }
      resume := reply.resume.value;
    }
  }

  // --- a server that pages a fixed list ---------------------------------------------------

  /** Hands out `list` in order: call `n` covers the items from `cut(n)` to `cut(n + 1)`, with
      a handle that is new and not zero until all is out, and whatever total it likes. */
  ghost predicate PagesInOrder<T>(server: Server<T>, list: seq<T>, cut: nat -> nat) {
    cut(0) == 0 &&
    forall n: nat :: PageIs(server, list, cut, n)
  }

  predicate FreshHandle<T>(server: Server<T>, n: nat) {
    server(n).resume.Some? && server(n).resume.value != 0 && server(n).resume.value != HandleAt(server, n)
  }

  ghost predicate PageIs<T>(server: Server<T>, list: seq<T>, cut: nat -> nat, n: nat) {
    cut(n) <= cut(n + 1) <= |list| &&
    server(n).batch == list[cut(n)..cut(n + 1)] &&
    (cut(n) < |list| ==> cut(n) < cut(n + 1)) &&
    (cut(n + 1) < |list| ==> FreshHandle(server, n))
  }

  /** Every total reported before the last page is above what has been handed out by then. */
  ghost predicate TotalsAhead<T>(server: Server<T>, list: seq<T>, cut: nat -> nat) {
    forall n: nat :: AheadAt(server, list, cut, n)
  }

  predicate AheadAt<T>(server: Server<T>, list: seq<T>, cut: nat -> nat, n: nat) {
    cut(n + 1) < |list| ==> OrZero(server(n).total) > cut(n + 1)
  }

  lemma {:induction false} GatheredIsPrefix<T>(server: Server<T>, list: seq<T>, cut: nat -> nat, n: nat)
    requires PagesInOrder(server, list, cut)
    ensures cut(n) <= |list| && Gathered(server, n) == list[..cut(n)]
  {
    if n > 0 {
      GatheredIsPrefix(server, list, cut, n - 1);
      assert PageIs(server, list, cut, n - 1);
      assert list[..cut(n - 1)] + list[cut(n - 1)..cut(n)] == list[..cut(n)];
    }
  }

  /** Before the last page the loop goes on exactly when the total reported is ahead. */
  lemma GoesOnIff<T>(server: Server<T>, list: seq<T>, cut: nat -> nat, n: nat)
    requires PagesInOrder(server, list, cut) && cut(n + 1) < |list|
    ensures !StopsAt(server, n) <==> AheadAt(server, list, cut, n)
  {
    GatheredIsPrefix(server, list, cut, n + 1);
    assert PageIs(server, list, cut, n);
  }

  lemma {:induction false} CutsGrow<T>(server: Server<T>, list: seq<T>, cut: nat -> nat, m: nat, n: nat)
    requires PagesInOrder(server, list, cut) && m <= n
    ensures cut(m) <= cut(n)
  {
    if m < n {
      CutsGrow(server, list, cut, m, n - 1);
      assert PageIs(server, list, cut, n - 1);
    }
  }

  /** Where the loop first stops, the whole list has been gathered if and only if the totals
      were ahead until the last page. */
  lemma Complete<T>(server: Server<T>, list: seq<T>, cut: nat -> nat, n: nat)
    requires PagesInOrder(server, list, cut)
    requires StopsAt(server, n) && forall k :: 0 <= k < n ==> !StopsAt(server, k)
    ensures Gathered(server, n + 1) == list <==> TotalsAhead(server, list, cut)
  {
    GatheredIsPrefix(server, list, cut, n + 1);
    assert list[..|list|] == list;
    if cut(n + 1) < |list| {
      GoesOnIff(server, list, cut, n);
      assert |list[..cut(n + 1)]| < |list|;
    } else {
      forall m: nat ensures AheadAt(server, list, cut, m) {
        if cut(m + 1) < |list| {
          if n <= m { CutsGrow(server, list, cut, n + 1, m + 1); }
          GoesOnIff(server, list, cut, m);
        }
      }
    }
  }

  /** Against such a server the loop returns the list, everything, once and in order, exactly
      when the totals are ahead; otherwise a beginning of it. */
  method EnumerateAll<T>(server: Server<T>, ghost list: seq<T>, ghost cut: nat -> nat, ghost limit: nat)
    returns (found: seq<T>, calls: nat)
    requires PagesInOrder(server, list, cut) && TotalsBounded(server, limit)
    ensures found <= list && calls <= if limit == 0 then 1 else limit
    ensures found == list <==> TotalsAhead(server, list, cut)
  {
    found, calls := Enumerate(server, limit);
    Complete(server, list, cut, calls - 1);
    GatheredIsPrefix(server, list, cut, calls);
  }

  /** A server that reports the overall length is always ahead. */
  lemma OverallIsAhead<T>(server: Server<T>, list: seq<T>, cut: nat -> nat)
    requires PagesInOrder(server, list, cut) && forall n: nat :: server(n).total == Some(|list|)
    ensures TotalsAhead(server, list, cut) && TotalsBounded(server, |list|)
  {
  }

  // --- level negotiation -----------------------------------------------------------------------

  datatype Answer<T> = Entries(entries: seq<T>) | Unsupported | Failed(code: string)

  predicate FirstSupported<T>(levels: seq<nat>, ask: nat -> Answer<T>, i: int) {
    0 <= i < |levels| && !ask(levels[i]).Unsupported? && forall k :: 0 <= k < i ==> ask(levels[k]).Unsupported?
  }

  /** The first level that is not declined decides, whatever it says. */
  method EnumerateLevels<T>(levels: seq<nat>, ask: nat -> Answer<T>) returns (r: Answer<T>, level: Option<nat>)
    requires levels != []
    ensures r.Unsupported? <==> forall i :: 0 <= i < |levels| ==> ask(levels[i]).Unsupported?
    ensures level.Some? <==> r.Entries?
    ensures !r.Unsupported? ==> exists i :: FirstSupported(levels, ask, i) && r == ask(levels[i]) &&
                                        (level.Some? ==> level.value == levels[i])
  {
    var i := 0;
    while i < |levels|
      invariant 0 <= i <= |levels|
      invariant forall k :: 0 <= k < i ==> ask(levels[k]).Unsupported?
    {
      r := ask(levels[i]);
      if !r.Unsupported? {
        assert FirstSupported(levels, ask, i);
        return r, if r.Entries? then Some(levels[i]) else None;
      }
      i := i + 1;
    }
    r, level := Unsupported, None;
  }
}
