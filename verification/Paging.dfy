/**
 Reading an ordered map of the account through bounded pages. The server answers with the entries after an
 exclusive cursor; the client asks again from the last entry it has until a page comes back empty.
 */
module Paging {
  import opened Basics

  const DEFAULT_LIMIT: nat := 5
  const MAX_LIMIT: nat := 10

  datatype Entry<+K, +V> = Entry(key: K, value: V)

  /** Storage iterates in strictly ascending key order. */
  ghost predicate Ascending<K, V>(store: seq<Entry<K, V>>, less: (K, K) -> bool) {
    forall i, j :: 0 <= i < j < |store| ==> less(store[i].key, store[j].key)
  }

  function PageSize(limit: Option<nat>): nat {
    var asked := if limit.Some? then limit.value else DEFAULT_LIMIT;
    if asked < MAX_LIMIT then asked else MAX_LIMIT
  }

  /** `range` with an exclusive lower bound, or without one. */
  function Behind<K, V>(store: seq<Entry<K, V>>, less: (K, K) -> bool, startAfter: Option<K>): seq<Entry<K, V>> {
    if store == [] then []
    else if startAfter.None? || less(startAfter.value, store[0].key) then [store[0]] + Behind(store[1..], less, startAfter)
    else Behind(store[1..], less, startAfter)
  }

  /** The server's page: what lies behind the cursor, cut at the limit. */
  function Page<K, V>(store: seq<Entry<K, V>>, less: (K, K) -> bool, startAfter: Option<K>, limit: Option<nat>)
    : seq<Entry<K, V>>
  {
    var behind := Behind(store, less, startAfter);
    if |behind| <= PageSize(limit) then behind else behind[..PageSize(limit)]
  }

  /** Entry i lies behind the cursor. */
  predicate IsBehind<K, V>(store: seq<Entry<K, V>>, less: (K, K) -> bool, startAfter: Option<K>, i: nat)
    requires i < |store|
  {
    startAfter.None? || less(startAfter.value, store[i].key)
  }

  /** When exactly the entries from n on are behind the cursor, they are what the range yields. */
  lemma {:induction false} BehindCursor<K(!new), V>(store: seq<Entry<K, V>>, less: (K, K) -> bool, startAfter: Option<K>, n: nat)
    requires n <= |store|
    requires forall i: nat :: i < |store| ==> (IsBehind(store, less, startAfter, i) <==> n <= i)
    ensures Behind(store, less, startAfter) == store[n..]
    decreases |store|
  {
    if store != [] {
      var rest := store[1..];
      var m := if n == 0 then 0 else n - 1;
      assert IsBehind(store, less, startAfter, 0) <==> n <= 0;
      forall i: nat | i < |rest|
        ensures IsBehind(rest, less, startAfter, i) <==> m <= i
      {
        assert IsBehind(store, less, startAfter, i + 1) <==> n <= i + 1;
      }
      BehindCursor(rest, less, startAfter, m);
      assert store[0..] == store && (n == 0 ==> store == [store[0]] + rest[0..]) && (n > 0 ==> rest[m..] == store[n..]);
    }
  }

  /** The cursor after reading n entries. */
  function Cursor<K, V>(store: seq<Entry<K, V>>, n: nat): Option<K>
    requires n <= |store|
  {
    if n == 0 then None else Some(store[n - 1].key)
  }

  /** Having read the first n entries, the next page is the next stretch of the store. */
  lemma NextPage<K(!new), V>(store: seq<Entry<K, V>>, less: (K, K) -> bool, n: nat, limit: Option<nat>)
    requires StrictTotal(less) && Ascending(store, less) && n <= |store|
    ensures var page := Page(store, less, Cursor(store, n), limit);
            var most := if limit.None? then 5 else if limit.value < 10 then limit.value else 10;
            && |page| == (if |store| - n <= most then |store| - n else most)
            && page == store[n..n + |page|]
  {
    BehindCursor(store, less, Cursor(store, n), n);
  }

  /**
   `module_infos` of the client: the cursor is the last entry collected so far. The result is the whole map in
   order, after one query for every five entries begun and one that comes back empty.
   */
  method ModuleInfos<V>(store: seq<Entry<string, V>>) returns (infos: seq<Entry<string, V>>, ghost queries: nat)
    requires Ascending(store, StringLess)
    ensures infos == store
    ensures queries == (|store| + 4) / 5 + 1
  {
    infos, queries := [], 0;
    while true
      invariant |infos| <= |store| && infos == store[..|infos|]
      invariant |infos| == |store| || |infos| == 5 * queries
      invariant queries == (|infos| + 4) / 5
      decreases |store| - |infos|
    {
      var last := if infos == [] then None else Some(infos[|infos| - 1].key);
      NextModulePage(store, |infos|);
      var page := Page(store, StringLess, last, None);
      PageCounted(|infos|, |page|, queries);
      queries := queries + 1;
      if page == [] {
        break;
      }
      infos := infos + page;
    }
  }

  lemma NextModulePage<V>(store: seq<Entry<string, V>>, n: nat)
    requires Ascending(store, StringLess) && n <= |store|
    ensures var page := Page(store, StringLess, Cursor(store, n), None);
            && |page| == (if |store| - n <= 5 then |store| - n else 5)
            && store[..n] + page == store[..n + |page|]
  {
    StringLessStrictTotal();
    NextPage(store, StringLess, n, None);
  }

  /** A full run of pages and one more. */
  lemma PageCounted(read: nat, page: nat, queries: nat)
    ensures read == 5 * queries && 1 <= page <= 5 ==> (read + page + 4) / 5 == queries + 1
  {}

  function Keys(page: seq<Entry<nat, ()>>): (ids: seq<nat>)
    ensures |ids| == |page| && forall i :: 0 <= i < |page| ==> ids[i] == page[i].key
  {
    seq(|page|, i requires 0 <= i < |page| => page[i].key)
  }

  predicate NatLess(a: nat, b: nat) {
    a < b
  }

  /**
   The sub-account loops of the client and of `upgrade_account`: the cursor is the last entry of the last page.
   With a limit of its own the loop still returns everything, unless that limit is zero.
   */
  method SubAccountIds(store: seq<Entry<nat, ()>>, limit: Option<nat>) returns (ids: seq<nat>)
    requires Ascending(store, NatLess)
    ensures limit != Some(0) ==> |ids| == |store| && forall i :: 0 <= i < |ids| ==> ids[i] == store[i].key
    ensures limit == Some(0) ==> ids == []
  {
    ids := [];
    var startAfter: Option<nat> := None;
    while true
      invariant |ids| <= |store| && forall i :: 0 <= i < |ids| ==> ids[i] == store[i].key
      invariant startAfter == Cursor(store, |ids|)
      invariant limit == Some(0) ==> ids == []
      decreases |store| - |ids|
    {
      assert StrictTotal(NatLess);
      NextPage(store, NatLess, |ids|, limit);
      var page := Page(store, NatLess, startAfter, limit);
      if page == [] {
        break;
      }
      startAfter := Some(page[|page| - 1].key);
      ids := ids + Keys(page);
    }
  }

  /** A paged walk with any limit reads everything exactly when the limit is not zero or there is nothing to read. */
  function Walk<K(!new), V>(store: seq<Entry<K, V>>, less: (K, K) -> bool, n: nat, limit: Option<nat>): seq<Entry<K, V>>
    requires n <= |store|
    requires StrictTotal(less) && Ascending(store, less)
    decreases |store| - n
  {
    NextPage(store, less, n, limit);
    var page := Page(store, less, Cursor(store, n), limit);
    if page == [] then [] else page + Walk(store, less, n + |page|, limit)
  }

  lemma {:induction false} WalkReadsRest<K(!new), V>(store: seq<Entry<K, V>>, less: (K, K) -> bool, n: nat, limit: Option<nat>)
    requires n <= |store| && StrictTotal(less) && Ascending(store, less)
    ensures Walk(store, less, n, limit) == store[n..] <==> limit != Some(0) || n == |store|
    decreases |store| - n
  {
    NextPage(store, less, n, limit);
    var page := Page(store, less, Cursor(store, n), limit);
    if page != [] {
      WalkReadsRest(store, less, n + |page|, limit);
      assert store[n..] == store[n..n + |page|] + store[n + |page|..];
    }
  }
}
