/** Putting offered assets into a pool's own order, with zero amounts for the assets that were not offered. */
module AstrovaultOrder {
  import opened Basics

  datatype AssetInfo = NativeToken(denom: string) | Token(contractAddr: string)

  datatype Asset = Asset(info: AssetInfo, amount: nat)

  /** The asset that the pool's order has no place left for. */
  datatype ArgumentMismatch = ArgumentMismatch(asset: Asset)

  /** `Vec::swap_remove`: the last element takes the place of the removed one. */
  function SwapRemove(s: seq<Asset>, i: nat): seq<Asset>
    requires i < |s|
  {
    s[i := s[|s| - 1]][..|s| - 1]
  }

  /** The infos of a list of assets, as a multiset. */
  function Infos(s: seq<Asset>): multiset<AssetInfo> {
    if s == [] then multiset{} else Infos(s[..|s| - 1]) + multiset{s[|s| - 1].info}
  }

  lemma {:induction false} InfosConcat(a: seq<Asset>, b: seq<Asset>)
    ensures Infos(a + b) == Infos(a) + Infos(b)
    decreases |b|
  {
    if b == [] {
      assert a + b == a;
    } else {
      assert (a + b)[..|a + b| - 1] == a + b[..|b| - 1];
      InfosConcat(a, b[..|b| - 1]);
    }
  }

  lemma InfosSingle(x: Asset)
    ensures Infos([x]) == multiset{x.info}
  {
    assert [x][..0] == [];
  }

  lemma InfosSplit(a: seq<Asset>, x: Asset, b: seq<Asset>)
    ensures Infos(a + [x] + b) == Infos(a) + multiset{x.info} + Infos(b)
  {
    InfosConcat(a + [x], b);
    InfosConcat(a, [x]);
    InfosSingle(x);
  }

  /** A swap-remove before the end, spelled out. */
  lemma SwapRemoveShape(s: seq<Asset>, i: nat)
    requires i < |s| - 1
    ensures var last, between := s[|s| - 1], s[i + 1..|s| - 1];
            && s == s[..i] + [s[i]] + (between + [last])
            && SwapRemove(s, i) == s[..i] + [last] + between
  {}

  /** The shuffle of a swap-remove does not show in the infos. */
  lemma SwapRemoveInfos(s: seq<Asset>, i: nat)
    requires i < |s|
    ensures Infos(SwapRemove(s, i)) == Infos(s) - multiset{s[i].info}
  {
    if i == |s| - 1 {
      assert SwapRemove(s, i) == s[..i];
    } else {
      var last, between := s[|s| - 1], s[i + 1..|s| - 1];
      SwapRemoveShape(s, i);
      InfosSplit(s[..i], s[i], between + [last]);
      InfosConcat(between, [last]);
      InfosSingle(last);
      InfosSplit(s[..i], last, between);
      SwapInfos(Infos(s[..i]), Infos(between), s[i].info, last.info);
    }
  }

  lemma SwapInfos(a: multiset<AssetInfo>, b: multiset<AssetInfo>, x: AssetInfo, y: AssetInfo)
    ensures a + multiset{y} + b == a + multiset{x} + (b + multiset{y}) - multiset{x}
  {}

  /** Nor in the assets themselves. */
  lemma SwapRemoveAssets(s: seq<Asset>, i: nat)
    requires i < |s|
    ensures multiset(SwapRemove(s, i)) + multiset{s[i]} == multiset(s)
  {
    if i == |s| - 1 {
      assert s == s[..i] + [s[i]] && SwapRemove(s, i) == s[..i];
    } else {
      SwapRemoveShape(s, i);
    }
  }

  lemma InfosOccurs(s: seq<Asset>, x: AssetInfo)
    ensures x in Infos(s) <==> exists a :: a in s && a.info == x
    decreases |s|
  {
    if s != [] {
      var init, last := s[..|s| - 1], s[|s| - 1];
      InfosOccurs(init, x);
      assert s == init + [last];
      assert forall a :: a in s <==> a in init || a == last;
    }
  }

  /** `iter().position`: the first asset with the given info. */
  method Position(s: seq<Asset>, item: AssetInfo) returns (i: nat)
    ensures i <= |s|
    ensures i < |s| ==> s[i].info == item
    ensures forall j :: 0 <= j < i ==> s[j].info != item
  {
    i := 0;
    while i < |s| && s[i].info != item
      invariant i <= |s|
      invariant forall j :: 0 <= j < i ==> s[j].info != item
    {
      i := i + 1;
    }
  }

  /** The result is the input plus zero amounts. */
  ghost predicate OnlyFillersAdded(assets: seq<Asset>, result: seq<Asset>) {
    exists fillers: seq<Asset> ::
      (forall f :: f in fillers ==> f.amount == 0) && multiset(result) == multiset(assets) + multiset(fillers)
  }

  /** What the loop keeps: results and rest are the input plus fillers, and the rest is what the order has not asked for. */
  ghost predicate Sorting(assets: seq<Asset>, fillers: seq<Asset>, result: seq<Asset>, rest: seq<Asset>,
                          seen: multiset<AssetInfo>)
  {
    && (forall f :: f in fillers ==> f.amount == 0)
    && multiset(result) + multiset(rest) == multiset(assets) + multiset(fillers)
    && multiset(rest) <= multiset(assets)
    && Infos(rest) == Infos(assets) - seen
  }

  /** One place filled from the rest: by an asset taken out of it, or by a zero amount. */
  ghost predicate Placed(rest: seq<Asset>, item: AssetInfo, placed: Asset, left: seq<Asset>, added: seq<Asset>) {
    && placed.info == item
    && (forall f :: f in added ==> f.amount == 0)
    && multiset{placed} + multiset(left) == multiset(rest) + multiset(added)
    && multiset(left) <= multiset(rest)
    && Infos(left) == Infos(rest) - multiset{item}
  }

  method TakeOrFill(rest: seq<Asset>, item: AssetInfo) returns (placed: Asset, left: seq<Asset>, ghost added: seq<Asset>)
    ensures Placed(rest, item, placed, left, added)
    ensures placed in rest || placed == Asset(item, 0)
  {
    var position := Position(rest, item);
    if position < |rest| {
      SwapRemoveAssets(rest, position);
      SwapRemoveInfos(rest, position);
      placed, left, added := rest[position], SwapRemove(rest, position), [];
    } else {
      InfosOccurs(rest, item);
      placed, left, added := Asset(item, 0), rest, [Asset(item, 0)];
    }
  }

  lemma PlacedKeepsSorting(assets: seq<Asset>, fillers: seq<Asset>, result: seq<Asset>, rest: seq<Asset>,
                           seen: multiset<AssetInfo>, item: AssetInfo, placed: Asset, left: seq<Asset>, added: seq<Asset>)
    requires Sorting(assets, fillers, result, rest, seen) && Placed(rest, item, placed, left, added)
    ensures Sorting(assets, fillers + added, result + [placed], left, seen + multiset{item})
  {
    MoveOne(multiset(result), multiset(rest), multiset(left), multiset{placed}, multiset(assets), multiset(fillers), multiset(added));
    assert multiset(result + [placed]) == multiset(result) + multiset{placed};
    assert multiset(fillers + added) == multiset(fillers) + multiset(added);
    DropMore(Infos(assets), seen, item);
  }

  lemma MoveOne(result: multiset<Asset>, rest: multiset<Asset>, left: multiset<Asset>, placed: multiset<Asset>,
                assets: multiset<Asset>, fillers: multiset<Asset>, added: multiset<Asset>)
    requires result + rest == assets + fillers && placed + left == rest + added
    ensures (result + placed) + left == assets + (fillers + added)
  {
    assert (result + placed) + left == result + (placed + left);
    assert result + (rest + added) == (result + rest) + added;
    assert assets + (fillers + added) == (assets + fillers) + added;
  }

  lemma DropMore(all: multiset<AssetInfo>, seen: multiset<AssetInfo>, x: AssetInfo)
    ensures (all - seen) - multiset{x} == all - (seen + multiset{x})
  {}

  /** The infos of the first k places of the order. */
  ghost function Asked(order: seq<AssetInfo>, k: nat): multiset<AssetInfo>
    requires k <= |order|
  {
    if k == 0 then multiset{} else Asked(order, k - 1) + multiset{order[k - 1]}
  }

  lemma {:induction false} AskedPrefix(order: seq<AssetInfo>, k: nat)
    requires k <= |order|
    ensures Asked(order, k) == multiset(order[..k])
  {
    if k > 0 {
      AskedPrefix(order, k - 1);
      assert order[..k] == order[..k - 1] + [order[k - 1]];
    }
  }

  /** Each result so far has the info its place asks for. */
  ghost predicate FollowsOrder(result: seq<Asset>, order: seq<AssetInfo>) {
    |result| <= |order| && forall i :: 0 <= i < |result| ==> result[i].info == order[i]
  }

  lemma FollowsAppend(result: seq<Asset>, order: seq<AssetInfo>, x: Asset)
    requires FollowsOrder(result, order) && |result| < |order| && x.info == order[|result|]
    ensures FollowsOrder(result + [x], order)
  {}

  /** `astrovault_assets_normalize_order`. */
  method NormalizeOrder(assets: seq<Asset>, order: seq<AssetInfo>) returns (r: Result<seq<Asset>, ArgumentMismatch>)
    ensures r.Ok? <==> Infos(assets) <= multiset(order)
    ensures r.Ok? ==>
              && |r.value| == |order|
              && (forall i :: 0 <= i < |order| ==> r.value[i].info == order[i])
              && OnlyFillersAdded(assets, r.value)
    ensures r.Err? ==>
              r.error.asset in assets && Infos(assets)[r.error.asset.info] > multiset(order)[r.error.asset.info]
  {
    var rest := assets;
    var result: seq<Asset> := [];
    ghost var fillers: seq<Asset> := [];
    ArrangedStart(assets, order);
    for k := 0 to |order|
      invariant Arranged(assets, order, k, fillers, result, rest)
    {
      var placed, left, added := TakeOrFill(rest, order[k]);
      ArrangedNext(assets, order, k, fillers, result, rest, placed, left, added);
      result, rest := result + [placed], left;
      fillers := fillers + added;
    }
    ArrangedEnd(assets, order, fillers, result, rest);
    if rest != [] {
      return Err(ArgumentMismatch(rest[0]));
    }
    return Ok(result);
  }

  /** The first k places are filled. */
  ghost predicate Arranged(assets: seq<Asset>, order: seq<AssetInfo>, k: nat, fillers: seq<Asset>, result: seq<Asset>,
                           rest: seq<Asset>)
    requires k <= |order|
  {
    |result| == k && FollowsOrder(result, order) && Sorting(assets, fillers, result, rest, Asked(order, k))
  }

  lemma ArrangedStart(assets: seq<Asset>, order: seq<AssetInfo>)
    ensures Arranged(assets, order, 0, [], [], assets)
  {
    assert Infos(assets) - multiset{} == Infos(assets);
  }

  lemma ArrangedEnd(assets: seq<Asset>, order: seq<AssetInfo>, fillers: seq<Asset>, result: seq<Asset>, rest: seq<Asset>)
    requires Arranged(assets, order, |order|, fillers, result, rest)
    ensures |result| == |order| && forall i :: 0 <= i < |order| ==> result[i].info == order[i]
    ensures rest == [] <==> Infos(assets) <= multiset(order)
    ensures rest == [] ==> OnlyFillersAdded(assets, result)
    ensures rest != [] ==> rest[0] in assets && Infos(assets)[rest[0].info] > multiset(order)[rest[0].info]
  {
    AskedPrefix(order, |order|);
    assert order[..|order|] == order;
    EmptyIff(assets, fillers, result, rest, order);
    if rest != [] {
      LeftoverIsSurplus(assets, fillers, result, rest, order);
    }
  }

  lemma ArrangedNext(assets: seq<Asset>, order: seq<AssetInfo>, k: nat, fillers: seq<Asset>, result: seq<Asset>,
                     rest: seq<Asset>, placed: Asset, left: seq<Asset>, added: seq<Asset>)
    requires k < |order| && Arranged(assets, order, k, fillers, result, rest) && Placed(rest, order[k], placed, left, added)
    ensures Arranged(assets, order, k + 1, fillers + added, result + [placed], left)
  {
    PlacedKeepsSorting(assets, fillers, result, rest, Asked(order, k), order[k], placed, left, added);
    FollowsAppend(result, order, placed);
  }

  /** Everything found its place exactly when no info occurs more often than the order has places for it. */
  lemma EmptyIff(assets: seq<Asset>, fillers: seq<Asset>, result: seq<Asset>, rest: seq<Asset>, order: seq<AssetInfo>)
    requires Sorting(assets, fillers, result, rest, multiset(order))
    ensures rest == [] <==> Infos(assets) <= multiset(order)
    ensures rest == [] ==> OnlyFillersAdded(assets, result)
  {
    if rest == [] {
      assert multiset(result) == multiset(assets) + multiset(fillers);
    } else {
      InfosOccurs(rest, rest[0].info);
    }
  }

  lemma LeftoverIsSurplus(assets: seq<Asset>, fillers: seq<Asset>, result: seq<Asset>, rest: seq<Asset>, order: seq<AssetInfo>)
    requires Sorting(assets, fillers, result, rest, multiset(order)) && rest != []
    ensures Infos(assets)[rest[0].info] > multiset(order)[rest[0].info]
    ensures rest[0] in assets
  {
    InfosOccurs(rest, rest[0].info);
    assert rest[0] in multiset(rest);
  }
}
