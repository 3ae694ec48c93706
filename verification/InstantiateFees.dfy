/**
 The funds of an account's instantiation: what is demanded, what is attached to the outgoing messages, and
 what stays with the account.
 */
module InstantiateFees {
  import opened Basics
  import opened Cosmos

  /** A normalised collection: one positive amount per denom. */
  type Coins = map<string, nat>

  datatype FeeError = DuplicateDenom | Overflow | InvalidFee

  function Held(c: Coins, denom: string): nat {
    GetOr(c, denom, 0)
  }

  /** The total amount of one denom in a list of coins. */
  function Sum(coins: seq<Coin>, denom: string): nat {
    if coins == [] then 0
    else (if coins[0].denom == denom then coins[0].amount else 0) + Sum(coins[1..], denom)
  }

  lemma {:induction false} SumConcat(a: seq<Coin>, b: seq<Coin>, denom: string)
    ensures Sum(a + b, denom) == Sum(a, denom) + Sum(b, denom)
  {
    if a == [] {
      assert a + b == b;
    } else {
      assert (a + b)[1..] == a[1..] + b;
      SumConcat(a[1..], b, denom);
    }
  }

  lemma SumAppend(coins: seq<Coin>, k: nat, denom: string)
    requires k < |coins|
    ensures Sum(coins[..k + 1], denom)
            == Sum(coins[..k], denom) + (if coins[k].denom == denom then coins[k].amount else 0)
  {
    assert coins[..k + 1] == coins[..k] + [coins[k]] && [coins[k]][1..] == [];
    SumConcat(coins[..k], [coins[k]], denom);
  }

  lemma {:induction false} SumPrefix(coins: seq<Coin>, k: nat, denom: string)
    requires k <= |coins|
    ensures Sum(coins[..k], denom) <= Sum(coins, denom)
  {
    assert coins == coins[..k] + coins[k..];
    SumConcat(coins[..k], coins[k..], denom);
  }

  /** Positive entries have pairwise distinct denoms. */
  ghost predicate Normalised(coins: seq<Coin>) {
    forall i, j :: 0 <= i < j < |coins| && coins[i].amount > 0 && coins[j].amount > 0 ==> coins[i].denom != coins[j].denom
  }

  ghost predicate Positive(c: Coins) {
    forall d :: d in c ==> c[d] > 0
  }

  /** The collection c holds the first k coins, each positive denom once. */
  ghost predicate Collected(coins: seq<Coin>, k: nat, c: Coins)
    requires k <= |coins|
  {
    && Normalised(coins[..k]) && Positive(c)
    && (forall d :: Held(c, d) == Sum(coins[..k], d))
    && (forall d :: d in c ==> exists i :: 0 <= i < k && coins[i].denom == d && coins[i].amount > 0)
    && (forall i :: 0 <= i < k && coins[i].amount > 0 ==> coins[i].denom in c)
  }

  lemma CollectedSkip(coins: seq<Coin>, k: nat, c: Coins)
    requires k < |coins| && Collected(coins, k, c) && coins[k].amount == 0
    ensures Collected(coins, k + 1, c)
  {
    forall d
      ensures Sum(coins[..k + 1], d) == Sum(coins[..k], d)
    {
      SumAppend(coins, k, d);
    }
  }

  lemma CollectedAdd(coins: seq<Coin>, k: nat, c: Coins)
    requires k < |coins| && Collected(coins, k, c) && coins[k].amount > 0 && coins[k].denom !in c
    ensures Collected(coins, k + 1, c[coins[k].denom := coins[k].amount])
  {
    var next := c[coins[k].denom := coins[k].amount];
    assert Held(c, coins[k].denom) == Sum(coins[..k], coins[k].denom);
    forall d
      ensures Held(next, d) == Sum(coins[..k + 1], d)
    {
      SumAppend(coins, k, d);
      assert Held(c, d) == Sum(coins[..k], d);
    }
    forall d | d in next
      ensures exists i :: 0 <= i < k + 1 && coins[i].denom == d && coins[i].amount > 0
    {
      if d == coins[k].denom {
        assert coins[k].denom == d && coins[k].amount > 0;
      }
    }
  }

  lemma CollectedTwice(coins: seq<Coin>, k: nat, c: Coins)
    requires k < |coins| && Collected(coins, k, c) && coins[k].amount > 0 && coins[k].denom in c
    ensures !Normalised(coins)
  {
    var i :| 0 <= i < k && coins[i].denom == coins[k].denom && coins[i].amount > 0;
  }

  /** `Coins::try_from`: zero amounts are skipped, a repeated denom is an error. */
  method Collect(coins: seq<Coin>) returns (r: Result<Coins, FeeError>)
    ensures r.Ok? <==> Normalised(coins)
    ensures r.Ok? ==> Positive(r.value) && forall d :: Held(r.value, d) == Sum(coins, d)
    ensures r.Err? ==> r.error == DuplicateDenom
  {
    var c: Coins := map[];
    for k := 0 to |coins|
      invariant Collected(coins, k, c)
    {
      if coins[k].amount > 0 {
        if coins[k].denom in c {
          CollectedTwice(coins, k, c);
          return Err(DuplicateDenom);
        }
        CollectedAdd(coins, k, c);
        c := c[coins[k].denom := coins[k].amount];
      } else {
        CollectedSkip(coins, k, c);
      }
    }
    assert coins[..|coins|] == coins;
    return Ok(c);
  }

  /** `Coins::add`. */
  method Add(c: Coins, coin: Coin) returns (r: Result<Coins, FeeError>)
    requires Positive(c)
    ensures r.Ok? <==> coin.amount == 0 || Held(c, coin.denom) + coin.amount < U128_LIMIT
    ensures r.Ok? ==> Positive(r.value) && forall d ::
              Held(r.value, d) == Held(c, d) + (if d == coin.denom then coin.amount else 0)
    ensures r.Err? ==> r.error == Overflow
  {
    if coin.amount == 0 {
      return Ok(c);
    }
    if Held(c, coin.denom) + coin.amount >= U128_LIMIT {
      return Err(Overflow);
    }
    return Ok(c[coin.denom := Held(c, coin.denom) + coin.amount]);
  }

  /** `Coins::sub`: a denom that reaches zero is removed. */
  method Subtract(c: Coins, coin: Coin) returns (r: Result<Coins, FeeError>)
    requires Positive(c)
    ensures r.Ok? <==> coin.amount <= Held(c, coin.denom)
    ensures r.Ok? ==> Positive(r.value) && forall d ::
              Held(r.value, d) + (if d == coin.denom then coin.amount else 0) == Held(c, d)
  {
    var held := Held(c, coin.denom);
    if coin.amount > held {
      return Err(InvalidFee);
    }
    return Ok(if held == coin.amount then c - {coin.denom} else c[coin.denom := held - coin.amount]);
  }

  /** In normal form a denom's total is a single amount, so it stays within 128 bits. */
  lemma {:induction false} NormalisedSum(coins: seq<Coin>, denom: string)
    requires forall c :: c in coins ==> c.amount < U128_LIMIT
    ensures Normalised(coins) ==> Sum(coins, denom) < U128_LIMIT
    ensures (forall c :: c in coins && c.denom == denom ==> c.amount == 0) ==> Sum(coins, denom) == 0
  {
    if coins != [] {
      var rest := coins[1..];
      NormalisedSum(rest, denom);
      if Normalised(coins) {
        assert Normalised(rest) by {
          forall i, j | 0 <= i < j < |rest| && rest[i].amount > 0 && rest[j].amount > 0
            ensures rest[i].denom != rest[j].denom
          {
            assert coins[i + 1].denom != coins[j + 1].denom;
          }
        }
        if coins[0].denom == denom && coins[0].amount > 0 {
          forall c | c in rest && c.denom == denom
            ensures c.amount == 0
          {
            var j :| 0 <= j < |rest| && rest[j] == c;
            assert coins[j + 1] == c;
          }
        }
      }
    }
  }

  /** What an instantiation demands of one denom. */
  function Demanded(namespaceFee: seq<Coin>, required: seq<Coin>, denom: string): nat {
    Sum(namespaceFee, denom) + Sum(required, denom)
  }

  /** The outcome: funds on the registry message, funds on the install message, and what the account keeps. */
  datatype Payment = Payment(toRegistry: seq<Coin>, toFactory: seq<Coin>, kept: Coins)

  /** The total fee: the namespace fee, then every required coin. */
  method TotalFee(namespaceFee: Option<Coin>, required: seq<Coin>) returns (r: Result<Coins, FeeError>)
    ensures var fee := if namespaceFee.Some? then [namespaceFee.value] else [];
            && (r.Ok? ==> Positive(r.value) && forall d :: Held(r.value, d) == Demanded(fee, required, d))
            && (r.Err? ==> exists d :: Demanded(fee, required, d) >= U128_LIMIT)
  {
    var fee := if namespaceFee.Some? then [namespaceFee.value] else [];
    var collected := Collect(fee);
    var total := collected.value;
    for k := 0 to |required|
      invariant Positive(total)
      invariant forall d :: Held(total, d) == Sum(fee, d) + Sum(required[..k], d)
    {
      var coin := required[k];
      forall d
        ensures Sum(required[..k + 1], d) == Sum(required[..k], d) + (if coin.denom == d then coin.amount else 0)
      {
        SumAppend(required, k, d);
      }
      var added := Add(total, coin);
      if added.Err? {
        SumPrefix(required, k + 1, coin.denom);
        assert Demanded(fee, required, coin.denom) >= U128_LIMIT;
        return Err(added.error);
      }
      total := added.value;
    }
    assert required[..|required|] == required;
    return Ok(total);
  }

  /** The loop over the fees: pays them one denom at a time, or stops at one that is not covered. */
  method PayAll(received: Coins, fees: Coins) returns (r: Result<Coins, FeeError>)
    requires Positive(received)
    ensures r.Ok? <==> forall d :: Held(fees, d) <= Held(received, d)
    ensures r.Ok? ==> Positive(r.value) && forall d :: Held(r.value, d) + Held(fees, d) == Held(received, d)
    ensures r.Err? ==> r.error == InvalidFee
  {
    var left, todo := received, fees.Keys;
    while todo != {}
      invariant todo <= fees.Keys && Positive(left)
      invariant forall d :: Held(left, d) + (if d in todo then 0 else Held(fees, d)) == Held(received, d)
      decreases todo
    {
      var d :| d in todo;
      var paid := Subtract(left, Coin(d, fees[d]));
      if paid.Err? {
        assert Held(fees, d) > Held(received, d);
        return Err(InvalidFee);
      }
      left, todo := paid.value, todo - {d};
    }
    return Ok(left);
  }

  /**
   The funds of `instantiate`. With the received funds in the chain's normal form it succeeds exactly when they
   cover the namespace fee and the install funds in every denom; what is attached to the messages is exactly
   that, so nothing is created or lost and the account is never short.
   */
  method InstantiateFunds(namespaceFee: Option<Coin>, installs: bool, required: seq<Coin>, received: seq<Coin>)
    returns (r: Result<Payment, FeeError>)
    requires forall c :: c in received ==> c.amount < U128_LIMIT
    ensures var fee := if namespaceFee.Some? then [namespaceFee.value] else [];
            var funds := if installs then required else [];
            && (r.Ok? <==> Normalised(received) && forall d :: Demanded(fee, funds, d) <= Sum(received, d))
            && (r.Ok? ==>
                  && r.value.toRegistry == fee && r.value.toFactory == funds
                  && forall d :: Sum(r.value.toRegistry, d) + Sum(r.value.toFactory, d) + Held(r.value.kept, d)
                                 == Sum(received, d))
  {
    var fee := if namespaceFee.Some? then [namespaceFee.value] else [];
    var funds := if installs then required else [];
    var total := TotalFee(namespaceFee, funds);
    if total.Err? {
      ghost var d :| Demanded(fee, funds, d) >= U128_LIMIT;
      NormalisedSum(received, d);
      return Err(total.error);
    }
    var coins := Collect(received);
    if coins.Err? {
      return Err(coins.error);
    }
    var kept := PayAll(coins.value, total.value);
    if kept.Err? {
      assert exists d :: Held(total.value, d) > Held(coins.value, d);
      ghost var d :| Held(total.value, d) > Held(coins.value, d);
      assert Demanded(fee, funds, d) > Sum(received, d);
      return Err(kept.error);
    }
    forall d
      ensures Demanded(fee, funds, d) <= Sum(received, d)
    {
      assert Held(kept.value, d) + Held(total.value, d) == Held(coins.value, d);
    }
    return Ok(Payment(fee, funds, kept.value));
  }
}
