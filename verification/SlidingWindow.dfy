/** The burst detector of the store (persistent_kv_store.cpp, SlidingWindow). Times are milliseconds
    of a monotone clock, passed in where the code reads the clock. */
module SlidingWindow {

  /** The stamps not before `cutoff`. */
  function CountSince(stamps: seq<int>, cutoff: int): nat {
    if stamps == [] then 0
    else (if stamps[0] >= cutoff then 1 else 0) + CountSince(stamps[1..], cutoff)
  }

  predicate Sorted(stamps: seq<int>) {
    forall i, j :: 0 <= i < j < |stamps| ==> stamps[i] <= stamps[j]
  }

  lemma {:induction false} CountConcat(s: seq<int>, t: seq<int>, cutoff: int)
    ensures CountSince(s + t, cutoff) == CountSince(s, cutoff) + CountSince(t, cutoff)
  {
    if s == [] {
      assert s + t == t;
    } else {
      assert (s + t)[0] == s[0] && (s + t)[1..] == s[1..] + t;
      CountConcat(s[1..], t, cutoff);
    }
  }

  lemma {:induction false} CountAll(s: seq<int>, cutoff: int)
    requires forall i :: 0 <= i < |s| ==> s[i] >= cutoff
    ensures CountSince(s, cutoff) == |s|
  {
    if s != [] {
      CountAll(s[1..], cutoff);
    }
  }

  lemma {:induction false} CountNone(s: seq<int>, cutoff: int)
    requires forall i :: 0 <= i < |s| ==> s[i] < cutoff
    ensures CountSince(s, cutoff) == 0
  {
    if s != [] {
      CountNone(s[1..], cutoff);
    }
  }

  /** As time passes without new stamps the count never grows. */
  lemma {:induction false} CountShrinks(s: seq<int>, cutoff: int, later: int)
    requires cutoff <= later
    ensures CountSince(s, later) <= CountSince(s, cutoff)
  {
    if s != [] {
      CountShrinks(s[1..], cutoff, later);
    }
  }

  /** In sorted stamps, those from the end down to the first expired one are all that count. */
  lemma ScanCountsAll(s: seq<int>, cutoff: int, count: nat)
    requires Sorted(s) && count <= |s|
    requires forall i :: |s| - count <= i < |s| ==> s[i] >= cutoff
    requires count < |s| ==> s[|s| - 1 - count] < cutoff
    ensures CountSince(s, cutoff) == count
  {
    hide CountSince;
    var n := |s| - count;
    assert s == s[..n] + s[n..];
    CountConcat(s[..n], s[n..], cutoff);
    CountNone(s[..n], cutoff);
    CountAll(s[n..], cutoff);
  }

  class Window {
    const maxOps: int
    const size: int
    var stamps: seq<int>

    constructor (maxOps: int, size: int)
      ensures this.maxOps == maxOps && this.size == size && stamps == []
    {
      this.maxOps := maxOps;
      this.size := size;
      stamps := [];
    }

    method AddOp(now: int)
      modifies this
      ensures stamps == old(stamps) + [now]
    {
      stamps := stamps + [now];
    }

    /** The scan from the newest stamp that stops at the first expired one counts them all,
        because stamps are stored in time order. */
    method Count(now: int) returns (count: nat)
      requires Sorted(stamps)
      ensures count == CountSince(stamps, now - size)
    {
      var cutoff := now - size;
      count := 0;
      while count < |stamps|
        invariant count <= |stamps|
        invariant forall i :: |stamps| - count <= i < |stamps| ==> stamps[i] >= cutoff
      {
        if stamps[|stamps| - 1 - count] < cutoff {
          break;
        }
        count := count + 1;
      }
      ScanCountsAll(stamps, cutoff, count);
    }

    method IsExceeded(now: int) returns (exceeded: bool)
      requires Sorted(stamps)
      ensures exceeded <==> CountSince(stamps, now - size) > maxOps
    {
      var count := Count(now);
      exceeded := count > maxOps;
    }

    method Clear()
      modifies this
      ensures stamps == []
    {
      stamps := [];
    }
  }
}
