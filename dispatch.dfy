/** The dispatcher half of `main`: it walks the directory listing once and
    sends every entry that is neither a directory nor hidden down the channel
    the workers read, then closes the channel. */
module Dispatch {
  import opened Files
  import opened Paths

  /** The test the dispatch loop applies to each listed entry. */
  predicate Dispatched(e: Entry)
  {
    !e.isDir && !IsHidden(e.name)
  }

  /** The entries the dispatch loop sends, in the order it sends them. */
  function Eligible(listing: seq<Entry>): (r: seq<Entry>)
    ensures forall e :: e in r <==> e in listing && Dispatched(e)
    ensures |r| <= |listing|
  {
    if listing == [] then []
    else
      var last := listing[|listing| - 1];
      Eligible(listing[..|listing| - 1]) + (if Dispatched(last) then [last] else [])
  }

  /** Filtering a listing piecewise gives the same entries in the same order:
      the filter keeps the relative order of the entries it lets through. */
  lemma {:induction false} EligibleAppend(a: seq<Entry>, b: seq<Entry>)
    ensures Eligible(a + b) == Eligible(a) + Eligible(b)
    decreases |b|
  {
    if b == [] {
      assert a + b == a;
    } else {
      var b' := b[..|b| - 1];
      assert (a + b)[..|a + b| - 1] == a + b';
      EligibleAppend(a, b');
    }
  }

  /** Entries with pairwise different names (a directory listing never holds
      two entries of the same name). */
  predicate DistinctNames(q: seq<Entry>)
  {
    forall i, j :: 0 <= i < j < |q| ==> q[i].name != q[j].name
  }

  /** The dispatched sequence inherits distinct names from the listing. */
  lemma {:induction false} EligibleDistinct(listing: seq<Entry>)
    requires DistinctNames(listing)
    ensures DistinctNames(Eligible(listing))
    decreases |listing|
  {
    if listing != [] {
      var init := listing[..|listing| - 1];
      var last := listing[|listing| - 1];
      assert DistinctNames(init);
      EligibleDistinct(init);
      var r := Eligible(init);
      forall i | 0 <= i < |r|
        ensures r[i].name != last.name
      {
        assert r[i] in init;
        var k :| 0 <= k < |init| && init[k] == r[i];
        assert listing[k] == init[k];
      }
    }
  }

  /** The unbuffered `chan os.FileInfo`, seen sequentially: the entries sent
      and not yet received, and whether `close` has been called. */
  class Channel {
    var pending: seq<Entry>
    var closed: bool

    constructor ()
      ensures pending == [] && !closed
    {
      pending := [];
      closed := false;
    }

    /** `ch <- e`; sending on a closed channel panics in Go. */
    method Send(e: Entry)
      requires !closed
      modifies this
      ensures pending == old(pending) + [e] && !closed
    {
      pending := pending + [e];
    }

    /** `close(ch)`; closing twice panics in Go. */
    method Close()
      requires !closed
      modifies this
      ensures closed && pending == old(pending)
    {
      closed := true;
    }

    /** `e, more := <-ch`: the oldest pending entry, or `more == false` once
        the channel is closed and drained. A receive on an open, empty
        channel would block; the sequential model never makes one. */
    method Receive() returns (e: Entry, more: bool)
      requires closed || pending != []
      modifies this
      ensures more <==> old(pending) != []
      ensures more ==> e == old(pending)[0] && pending == old(pending)[1..]
      ensures !more ==> pending == old(pending)
      ensures closed == old(closed)
    {
      if pending == [] {
        e, more := Entry("", false, Mode(0)), false;
      } else {
        e, more := pending[0], true;
        pending := pending[1..];
      }
    }
  }

  /** The `for _, file := range fileinfos` loop of `main` and the `close`
      after it. */
  method DispatchEntries(listing: seq<Entry>, ch: Channel)
    requires !ch.closed
    modifies ch
    ensures ch.pending == old(ch.pending) + Eligible(listing)
    ensures ch.closed
  {
    for i := 0 to |listing|
      invariant !ch.closed
      invariant ch.pending == old(ch.pending) + Eligible(listing[..i])
    {
      var file := listing[i];
      assert listing[..i + 1][..i] == listing[..i];
      if file.isDir {
        continue;
      }
      if IsHidden(file.name) {
        continue;
      } else {
        ch.Send(file);
      }
    }
    assert listing[..|listing|] == listing;
    ch.Close();
  }
}
