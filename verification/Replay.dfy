/** The in-memory map and the replay of log records onto it (persistent_kv_store.cpp, Recover). */
module Replay {
  import opened Bytes
  import opened Options
  import opened WalCodec

  type Map = map<Bytes, Bytes>

  function Get(m: Map, k: Bytes): Option<Bytes> {
    if k in m then Some(m[k]) else None
  }

  /** The `switch` of the replay loop: operations other than SET and DEL change nothing. */
  function ApplyRecord(m: Map, r: Record): Map {
    if r.op == SET then m[r.key := r.value]
    else if r.op == DEL then m - {r.key}
    else m
  }

  /** The records applied to `m`, first to last. */
  function Replayed(m: Map, rs: seq<Record>): Map
    decreases |rs|
  {
    if rs == [] then m else Replayed(ApplyRecord(m, rs[0]), rs[1..])
  }

  lemma {:induction false} ReplayedConcat(m: Map, rs: seq<Record>, ts: seq<Record>)
    ensures Replayed(m, rs + ts) == Replayed(Replayed(m, rs), ts)
    decreases |rs|
  {
    hide ApplyRecord;
    if rs == [] {
      assert rs + ts == ts;
    } else {
      assert (rs + ts)[0] == rs[0] && (rs + ts)[1..] == rs[1..] + ts;
      ReplayedConcat(ApplyRecord(m, rs[0]), rs[1..], ts);
    }
  }

  lemma ReplayedFirst(m: Map, r: Record, rs: seq<Record>)
    ensures Replayed(m, [r] + rs) == Replayed(ApplyRecord(m, r), rs)
  {
    hide ApplyRecord;
    assert ([r] + rs)[1..] == rs;
  }

  lemma ReplayedAppend(m: Map, rs: seq<Record>, r: Record)
    ensures Replayed(m, rs + [r]) == ApplyRecord(Replayed(m, rs), r)
  {
    hide ApplyRecord;
    ReplayedConcat(m, rs, [r]);
    assert Replayed(Replayed(m, rs), [r]) == Replayed(ApplyRecord(Replayed(m, rs), r), [r][1..]);
  }

  // ---------- What a log does to one key ----------

  /** What is left of a key once something has written or deleted it: its value or its absence. */
  datatype Effect = Untouched | Left(value: Option<Bytes>)

  function EffectOf(r: Record): Effect {
    if r.op == SET then Left(Some(r.value)) else if r.op == DEL then Left(None) else Untouched
  }

  /** The effect of the last record in `rs` that touches `k`. */
  function LastEffect(rs: seq<Record>, k: Bytes): Effect
    decreases |rs|
  {
    if rs == [] then Untouched else
    var r := rs[|rs| - 1];
    if r.key == k && EffectOf(r) != Untouched then EffectOf(r) else LastEffect(rs[..|rs| - 1], k)
  }

  function After(before: Option<Bytes>, e: Effect): Option<Bytes> {
    match e
    case Untouched => before
    case Left(v) => v
  }

  /** A key after a replay holds the last effect on it, or its old value if there was none. */
  lemma {:induction false} ReplayedAt(m: Map, rs: seq<Record>, k: Bytes)
    ensures Get(Replayed(m, rs), k) == After(Get(m, k), LastEffect(rs, k))
    decreases |rs|
  {
    if rs == [] {
    } else {
      var n := |rs| - 1;
      assert rs == rs[..n] + [rs[n]];
      ReplayedAppend(m, rs[..n], rs[n]);
      ReplayedAt(m, rs[..n], k);
    }
  }

  lemma SameMap(m: Map, m': Map)
    requires forall k :: Get(m, k) == Get(m', k)
    ensures m == m'
  {
    forall k
      ensures k in m <==> k in m'
      ensures k in m ==> m[k] == m'[k]
    {
      assert Get(m, k) == Get(m', k);
    }
  }

  lemma {:induction false} LastEffectConcat(rs: seq<Record>, ts: seq<Record>, k: Bytes)
    ensures LastEffect(rs + ts, k) == if LastEffect(ts, k) == Untouched then LastEffect(rs, k) else LastEffect(ts, k)
    decreases |ts|
  {
    hide EffectOf;
    if ts == [] {
      assert rs + ts == rs;
    } else {
      var n := |ts| - 1;
      var all := rs + ts;
      assert all[|all| - 1] == ts[n] && all[..|all| - 1] == rs + ts[..n];
      LastEffectConcat(rs, ts[..n], k);
    }
  }

  // ---------- Consequences ----------

  /** The keys a log decides, whatever map it is replayed on. */
  predicate Touches(rs: seq<Record>, k: Bytes) {
    LastEffect(rs, k) != Untouched
  }

  /** Two starting maps give one result exactly when they agree on every key the log does not touch. */
  lemma SameReplayIff(m: Map, m': Map, rs: seq<Record>)
    ensures Replayed(m, rs) == Replayed(m', rs) <==> forall k :: Touches(rs, k) || Get(m, k) == Get(m', k)
  {
    hide Get, LastEffect;
    forall k
      ensures Get(Replayed(m, rs), k) == Get(Replayed(m', rs), k) <==> Touches(rs, k) || Get(m, k) == Get(m', k)
    {
      ReplayedAt(m, rs, k);
      ReplayedAt(m', rs, k);
    }
    if forall k :: Touches(rs, k) || Get(m, k) == Get(m', k) {
      SameMap(Replayed(m, rs), Replayed(m', rs));
    }
  }

  /** Replaying a log on a map that already has it changes nothing. */
  lemma ReplayIdempotent(m: Map, rs: seq<Record>)
    ensures Replayed(Replayed(m, rs), rs) == Replayed(m, rs)
  {
    hide Get, LastEffect;
    forall k
      ensures Touches(rs, k) || Get(Replayed(m, rs), k) == Get(m, k)
    {
      ReplayedAt(m, rs, k);
    }
    SameReplayIff(Replayed(m, rs), m, rs);
  }

  /** Without the snapshot underneath, a log rebuilds the same map exactly when it touches every key of it. */
  lemma SnapshotNeededIff(m: Map, rs: seq<Record>)
    ensures Replayed(m, rs) == Replayed(map[], rs) <==> forall k :: k in m ==> Touches(rs, k)
  {
    hide LastEffect;
    SameReplayIff(m, map[], rs);
    assert forall k :: Get(m, k) == Get(map[], k) <==> k !in m;
  }

  /** No two records write the same key. */
  ghost predicate DistinctKeys(rs: seq<Record>) {
    forall i, j :: 0 <= i < j < |rs| ==> rs[i].key != rs[j].key
  }

  /** With distinct keys the one record on a key decides it. */
  lemma {:induction false} EffectOfOnly(rs: seq<Record>, i: nat)
    requires DistinctKeys(rs) && i < |rs|
    ensures LastEffect(rs, rs[i].key) == EffectOf(rs[i])
    decreases |rs|
  {
    var n := |rs| - 1;
    if i < n {
      EffectOfOnly(rs[..n], i);
    } else {
      NoEffect(rs[..n], rs[n].key);
    }
  }

  lemma {:induction false} NoEffect(rs: seq<Record>, k: Bytes)
    requires forall r :: r in rs ==> r.key != k
    ensures LastEffect(rs, k) == Untouched
    decreases |rs|
  {
    if rs != [] {
      NoEffect(rs[..|rs| - 1], k);
    }
  }

  /** A reordering of records on distinct keys is on distinct keys. */
  lemma DistinctReordered(rs: seq<Record>, ts: seq<Record>)
    requires DistinctKeys(rs) && multiset(rs) == multiset(ts)
    ensures DistinctKeys(ts)
  {
    forall i, j | 0 <= i < j < |ts|
      ensures ts[i].key != ts[j].key
    {
      assert ts[i] in multiset(ts) && ts[j] in multiset(ts);
      assert ts[i] in rs && ts[j] in rs;
      if ts[i].key == ts[j].key {
        var a :| 0 <= a < |rs| && rs[a] == ts[i];
        assert ts[j] == ts[i];
        Twice(ts, i, j);
        OnlyOnce(rs, a);
      }
    }
  }

  lemma Twice(ts: seq<Record>, i: nat, j: nat)
    requires i < j < |ts| && ts[i] == ts[j]
    ensures multiset(ts)[ts[i]] >= 2
  {
    assert ts == ts[..j] + ts[j..];
    assert ts[i] in ts[..j] && ts[j] in ts[j..];
    assert multiset(ts[..j])[ts[i]] >= 1 && multiset(ts[j..])[ts[i]] >= 1;
  }

  lemma OnlyOnce(rs: seq<Record>, a: nat)
    requires DistinctKeys(rs) && a < |rs|
    ensures multiset(rs)[rs[a]] == 1
  {
    assert rs == rs[..a] + ([rs[a]] + rs[a + 1..]);
    assert rs[a] !in rs[..a] && rs[a] !in rs[a + 1..];
  }

  /** Records on distinct keys may be applied in any order. */
  lemma AnyOrder(m: Map, rs: seq<Record>, ts: seq<Record>)
    requires DistinctKeys(rs) && multiset(rs) == multiset(ts)
    ensures Replayed(m, rs) == Replayed(m, ts)
  {
    DistinctReordered(rs, ts);
    forall k
      ensures Get(Replayed(m, rs), k) == Get(Replayed(m, ts), k)
    {
      ReplayedAt(m, rs, k);
      ReplayedAt(m, ts, k);
      SameEffect(rs, ts, k);
    }
    SameMap(Replayed(m, rs), Replayed(m, ts));
  }

  lemma SameEffect(rs: seq<Record>, ts: seq<Record>, k: Bytes)
    requires DistinctKeys(rs) && DistinctKeys(ts) && multiset(rs) == multiset(ts)
    ensures LastEffect(rs, k) == LastEffect(ts, k)
  {
    hide EffectOf;
    assert forall r :: r in rs <==> r in multiset(rs);
    assert forall r :: r in ts <==> r in multiset(ts);
    if i :| 0 <= i < |rs| && rs[i].key == k {
      assert rs[i] in ts;
      var j :| 0 <= j < |ts| && ts[j] == rs[i];
      EffectOfOnly(rs, i);
      EffectOfOnly(ts, j);
    } else {
      NoEffect(rs, k);
      NoEffect(ts, k);
    }
  }

  // ---------- One record applied out of turn ----------

  function Without<T>(s: seq<T>, i: nat): seq<T>
    requires i < |s|
  {
    s[..i] + s[i + 1..]
  }

  /** Record i is the last on its key but others on that key are still ahead of it,
      and the nearest of them leaves something else there. */
  ghost predicate Overtakes(rs: seq<Record>, i: nat)
    requires i < |rs|
  {
    var k := rs[i].key;
    && EffectOf(rs[i]) != Untouched
    && !Touches(rs[i + 1..], k)
    && Touches(rs[..i], k)
    && LastEffect(rs[..i], k) != EffectOf(rs[i])
  }

  lemma LastEffectOne(r: Record, k: Bytes)
    ensures LastEffect([r], k) == if r.key == k then EffectOf(r) else Untouched
  {
    assert [r][..0] == [];
  }

  lemma LastEffectSplit(rs: seq<Record>, i: nat, k: Bytes)
    requires i < |rs|
    ensures LastEffect(rs, k) ==
            if Touches(rs[i + 1..], k) then LastEffect(rs[i + 1..], k)
            else if rs[i].key == k && EffectOf(rs[i]) != Untouched then EffectOf(rs[i])
            else LastEffect(rs[..i], k)
  {
    hide EffectOf, LastEffect;
    assert rs == rs[..i] + ([rs[i]] + rs[i + 1..]);
    LastEffectConcat(rs[..i], [rs[i]] + rs[i + 1..], k);
    LastEffectConcat([rs[i]], rs[i + 1..], k);
    LastEffectOne(rs[i], k);
  }

  /** Applying record i first and the others after it gives the in-order result exactly when it overtakes none. */
  lemma ApplyFirstIff(m: Map, rs: seq<Record>, i: nat)
    requires i < |rs|
    ensures Replayed(ApplyRecord(m, rs[i]), Without(rs, i)) == Replayed(m, rs) <==> !Overtakes(rs, i)
  {
    hide LastEffect;
    var k := rs[i].key;
    var first := ApplyRecord(m, rs[i]);
    var a, b := Replayed(first, Without(rs, i)), Replayed(m, rs);
    forall j
      ensures Get(a, j) == Get(b, j) <==> (j != k || !Overtakes(rs, i))
    {
      ReplayedAt(first, Without(rs, i), j);
      ReplayedAt(m, rs, j);
      LastEffectConcat(rs[..i], rs[i + 1..], j);
      LastEffectSplit(rs, i, j);
    }
    if !Overtakes(rs, i) {
      SameMap(a, b);
    } else {
      assert Get(a, k) != Get(b, k);
    }
  }

  /** Records in flight on distinct keys never overtake one another. */
  lemma DistinctNeverOvertakes(rs: seq<Record>, i: nat)
    requires DistinctKeys(rs) && i < |rs|
    ensures !Overtakes(rs, i)
  {
    NoEffect(rs[..i], rs[i].key);
  }
}
