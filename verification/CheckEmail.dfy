/** The check-email route: which confirmed wallets behind an address were used on chain. */
module CheckEmail {
  import opened Database
  import opened Users
  import opened Wrappers

  /** The balances the route asks for, by address: vehicles, aftermarket devices and tokens. */
  datatype Chain = Chain(vehicles: Bytes -> Result<int>, devices: Bytes -> Result<int>, tokens: Bytes -> Result<int>)

  datatype Response = Response(inUse: bool, external: nat, inApp: nat)

  /** The rows the route selects. */
  predicate Selected(row: Row, address: string) {
    && row.account.emailAddress == Some(address)
    && row.account.emailConfirmed && row.account.ethereumConfirmed && row.account.ethereumAddress.Some?
  }

  /** A row counts for an address exactly if it has it as its email, and both email and wallet are confirmed. */
  lemma SelectedExactly(t: Table, address: string, users: seq<Row>, id: string)
    requires Keyed(t) && id in t && Answers(t, (row: Row) => Selected(row, address), users)
    ensures t[id] in users <==>
            var account := t[id].account;
            && account.emailConfirmed && account.emailAddress == Some(address)
            && account.ethereumConfirmed && account.ethereumAddress != None
  {
    if t[id] in users {
      var i :| 0 <= i < |users| && users[i] == t[id];
    }
  }

  /** The row's wallet is an address; anything of another length is skipped. */
  predicate HasWallet(row: Row) {
    row.account.ethereumAddress.Some? && |row.account.ethereumAddress.value| == 20
  }

  predicate Holds(row: Row, addr: Bytes) {
    HasWallet(row) && row.account.ethereumAddress.value == addr
  }

  /** Whether an address was used: only in-app wallets are asked for tokens, and a balance found is enough. */
  function Check(chain: Chain, addr: Bytes, inApp: bool): Result<bool> {
    var vBal := chain.vehicles(addr);
    if vBal.Err? then Err
    else if vBal.value != 0 then Ok(true)
    else
      var adBal := chain.devices(addr);
      if adBal.Err? then Err
      else if adBal.value != 0 then Ok(true)
      else if !inApp then Ok(false)
      else
        var tokBal := chain.tokens(addr);
        if tokBal.Err? then Err else Ok(tokBal.value != 0)
  }

  /** The distinct addresses among the rows. */
  ghost function Wallets(users: seq<Row>): set<Bytes> {
    set i | 0 <= i < |users| && HasWallet(users[i]) :: users[i].account.ethereumAddress.value
  }

  /** Some row holds the address as an in-app wallet. */
  ghost predicate InApp(users: seq<Row>, addr: Bytes) {
    exists i :: 0 <= i < |users| && Holds(users[i], addr) && users[i].account.inAppWallet
  }

  /** The addresses whose check says that they were used. */
  ghost function UsedWallets(users: seq<Row>, chain: Chain): set<Bytes> {
    set a | a in Wallets(users) && Check(chain, a, InApp(users, a)) == Ok(true)
  }

  ghost function UsedInApp(users: seq<Row>, chain: Chain): set<Bytes> {
    set a | a in UsedWallets(users, chain) && InApp(users, a)
  }

  /** The check of some address fails. */
  ghost predicate SomeCheckFails(users: seq<Row>, chain: Chain) {
    exists a :: a in Wallets(users) && Check(chain, a, InApp(users, a)).Err?
  }

  /** What the route answers for the selected rows. */
  ghost function Outcome(users: seq<Row>, chain: Chain): Result<Response> {
    if SomeCheckFails(users, chain) then Err else
      var used, inApp := UsedWallets(users, chain), UsedInApp(users, chain);
      Ok(Response(used != {}, |used - inApp|, |inApp|))
  }

  lemma WalletsOfMore(users: seq<Row>, n: nat)
    requires n < |users|
    ensures Wallets(users[..n + 1]) ==
            if HasWallet(users[n]) then Wallets(users[..n]) + {users[n].account.ethereumAddress.value}
            else Wallets(users[..n])
    ensures forall a :: InApp(users[..n + 1], a) <==>
              (InApp(users[..n], a) || (Holds(users[n], a) && users[n].account.inAppWallet))
  {
    assert users[..n + 1] == users[..n] + [users[n]];
    assert users[..n + 1][n] == users[n];
    forall i | 0 <= i < n
      ensures users[..n + 1][i] == users[..n][i]
    {
    }
  }

  /** The loop over the rows: each distinct address once, with whether any row has it in the app. */
  method InAppStatus(users: seq<Row>) returns (status: map<Bytes, bool>)
    ensures status.Keys == Wallets(users)
    ensures forall a :: a in status ==> status[a] == InApp(users, a)
  {
    status := map[];
    for i := 0 to |users|
      invariant status.Keys == Wallets(users[..i])
      invariant forall a :: a in status ==> status[a] == InApp(users[..i], a)
    {
      WalletsOfMore(users, i);
      var user := users[i];
      if !HasWallet(user) {
        continue;
      }
      var addr := user.account.ethereumAddress.value;
      if addr in status {
        if user.account.inAppWallet {
          status := status[addr := true];
        }
      } else {
        status := status[addr := user.account.inAppWallet];
      }
    }
    assert users[..|users|] == users;
  }

  /** The used ones among the given addresses that are, or are not, in-app. */
  ghost function Marked(status: map<Bytes, bool>, chain: Chain, inApp: bool, among: set<Bytes>): set<Bytes> {
    set a | a in status && a in among && status[a] == inApp && Check(chain, a, inApp) == Ok(true)
  }

  /** One more address adds one to its count if its check says so. */
  lemma MarkedMore(status: map<Bytes, bool>, chain: Chain, inApp: bool, among: set<Bytes>, addr: Bytes)
    requires addr in status && addr !in among
    ensures |Marked(status, chain, inApp, among + {addr})| ==
            |Marked(status, chain, inApp, among)|
            + if status[addr] == inApp && Check(chain, addr, inApp) == Ok(true) then 1 else 0
  {
    var before, after := Marked(status, chain, inApp, among), Marked(status, chain, inApp, among + {addr});
    if status[addr] == inApp && Check(chain, addr, inApp) == Ok(true) {
      assert after == before + {addr};
    } else {
      assert after == before;
    }
  }

  /** The loop over the addresses, in whatever order the map gives them. */
  method Count(status: map<Bytes, bool>, chain: Chain) returns (ok: bool, usedExternal: nat, usedInApp: nat)
    ensures ok <==> forall a :: a in status ==> Check(chain, a, status[a]).Ok?
    ensures ok ==> usedExternal == |Marked(status, chain, false, status.Keys)|
    ensures ok ==> usedInApp == |Marked(status, chain, true, status.Keys)|
  {
    usedExternal, usedInApp := 0, 0;
    var left := status.Keys;
    ghost var done: set<Bytes> := {};
    while left != {}
      invariant done == status.Keys - left && left <= status.Keys
      invariant forall a :: a in done ==> Check(chain, a, status[a]).Ok?
      invariant usedExternal == |Marked(status, chain, false, done)|
      invariant usedInApp == |Marked(status, chain, true, done)|
      decreases left
    {
      var addr :| addr in left;
      left := left - {addr};
      MarkedMore(status, chain, false, done, addr);
      MarkedMore(status, chain, true, done, addr);
      done := done + {addr};
      var used := Check(chain, addr, status[addr]);
      if used.Err? {
        return false, 0, 0;
      }
      if used.value {
        if status[addr] {
          usedInApp := usedInApp + 1;
        } else {
          usedExternal := usedExternal + 1;
        }
      }
    }
    ok := true;
    assert done == status.Keys;
  }

  lemma MarkedAreUsed(users: seq<Row>, status: map<Bytes, bool>, chain: Chain)
    requires status.Keys == Wallets(users) && forall a :: a in status ==> status[a] == InApp(users, a)
    ensures Marked(status, chain, true, status.Keys) == UsedInApp(users, chain)
    ensures Marked(status, chain, false, status.Keys) == UsedWallets(users, chain) - UsedInApp(users, chain)
  {
  }

  /** The two loops and the response, for the rows in hand. */
  method Aggregate(users: seq<Row>, chain: Chain) returns (r: Result<Response>)
    ensures r == Outcome(users, chain)
  {
    var status := InAppStatus(users);
    var ok, usedExternal, usedInApp := Count(status, chain);
    if !ok {
      var a :| a in status && Check(chain, a, status[a]).Err?;
      return Err;
    }
    MarkedAreUsed(users, status, chain);
    CountsAddUp(users, chain);
    r := Ok(Response(usedInApp + usedExternal > 0, usedExternal, usedInApp));
  }

  /** The two counts are of different addresses, and together they are all the used ones. */
  lemma CountsAddUp(users: seq<Row>, chain: Chain)
    ensures var used, inApp := UsedWallets(users, chain), UsedInApp(users, chain);
            |used - inApp| + |inApp| == |used|
  {
    var used, inApp := UsedWallets(users, chain), UsedInApp(users, chain);
    assert (used - inApp) + inApp == used;
    assert (used - inApp) !! inApp;
  }

  /** r is the outcome for the rows that a query for the address can answer with. */
  ghost predicate Answered(t: Table, address: string, chain: Chain, users: seq<Row>, r: Result<Response>) {
    Answers(t, (row: Row) => Selected(row, address), users) && r == Outcome(users, chain)
  }

  /** The route: if the query is answered and the node dialed, only a failing check makes it fail. */
  method CheckEmail(db: DB, address: string, queried: bool, dialed: bool, chain: Chain) returns (r: Result<Response>)
    requires db.Valid()
    ensures queried && dialed ==> exists users :: Answered(db.table, address, chain, users, r)
    ensures !queried || !dialed ==> r.Err?
  {
    var answer := db.Select(queried, (row: Row) => Selected(row, address));
    if answer.Err? || !dialed {
      return Err;
    }
    r := Aggregate(answer.value, chain);
    assert Answered(db.table, address, chain, answer.value, r);
  }

  /** One list of rows has everything that another has. */
  ghost predicate Within(users: seq<Row>, more: seq<Row>) {
    forall u :: u in users ==> u in more
  }

  lemma WithinWallets(users: seq<Row>, more: seq<Row>)
    requires Within(users, more)
    ensures Wallets(users) <= Wallets(more)
    ensures forall a :: InApp(users, a) ==> InApp(more, a)
  {
    forall a | a in Wallets(users)
      ensures a in Wallets(more)
    {
      var i :| 0 <= i < |users| && HasWallet(users[i]) && users[i].account.ethereumAddress.value == a;
      assert users[i] in more;
    }
    forall a | InApp(users, a)
      ensures InApp(more, a)
    {
      var i :| 0 <= i < |users| && Holds(users[i], a) && users[i].account.inAppWallet;
      assert users[i] in more;
    }
  }

  /** The outcome depends only on which rows there are: not on their order, nor on repetitions. */
  lemma OutcomeOfSameRows(users: seq<Row>, others: seq<Row>, chain: Chain)
    requires Within(users, others) && Within(others, users)
    ensures Outcome(users, chain) == Outcome(others, chain)
  {
    WithinWallets(users, others);
    WithinWallets(others, users);
    assert Wallets(users) == Wallets(others);
    assert UsedWallets(users, chain) == UsedWallets(others, chain);
    assert UsedInApp(users, chain) == UsedInApp(others, chain);
  }

  /** Every permutation of the rows has the same outcome, failure included. */
  lemma OutcomeOfPermutation(users: seq<Row>, others: seq<Row>, chain: Chain)
    requires multiset(users) == multiset(others)
    ensures Outcome(users, chain) == Outcome(others, chain)
  {
    assert forall u :: u in users <==> u in multiset(users);
    assert forall u :: u in others <==> u in multiset(others);
    OutcomeOfSameRows(users, others, chain);
  }

  /** So the answer is a function of the table: whatever order its rows are read in. */
  lemma OutcomeOfTable(t: Table, address: string, users: seq<Row>, others: seq<Row>, chain: Chain)
    requires Keyed(t)
    requires Answers(t, (row: Row) => Selected(row, address), users)
    requires Answers(t, (row: Row) => Selected(row, address), others)
    ensures Outcome(users, chain) == Outcome(others, chain)
  {
    forall u | u in users
      ensures u in others
    {
      assert t[u.id] == u;
    }
    forall u | u in others
      ensures u in users
    {
      assert t[u.id] == u;
    }
    OutcomeOfSameRows(users, others, chain);
  }

  /** Fewer rows have fewer used wallets, of either kind and in the app, and no check that fails only for them. */
  lemma MoreUsedWallets(users: seq<Row>, more: seq<Row>, chain: Chain)
    requires Wallets(users) <= Wallets(more)
    requires forall a :: InApp(users, a) ==> InApp(more, a)
    requires !SomeCheckFails(more, chain)
    ensures !SomeCheckFails(users, chain)
    ensures UsedWallets(users, chain) <= UsedWallets(more, chain)
    ensures UsedInApp(users, chain) <= UsedInApp(more, chain)
  {
    forall a | a in Wallets(users)
      ensures Check(chain, a, InApp(users, a)).Ok?
      ensures Check(chain, a, InApp(users, a)).value ==> Check(chain, a, InApp(more, a)).value
    {
      assert Check(chain, a, InApp(more, a)).Ok?;
    }
  }

  lemma SubsetCount<T>(a: set<T>, b: set<T>)
    requires a <= b
    ensures |a| <= |b|
  {
    assert b == a + (b - a);
  }

  /**
   More rows never lower the in-app count or the total, and never make an address in use unused, even when a row turns
   an external address into an in-app one. If the route goes through with more rows, it does with fewer.
   */
  lemma MoreRowsMoreUse(users: seq<Row>, more: seq<Row>, chain: Chain)
    requires Within(users, more) && Outcome(more, chain).Ok?
    ensures var few, many := Outcome(users, chain), Outcome(more, chain).value;
            && few.Ok?
            && few.value.inApp <= many.inApp
            && few.value.external + few.value.inApp <= many.external + many.inApp
            && (few.value.inUse ==> many.inUse)
  {
    WithinWallets(users, more);
    MoreUsedWallets(users, more, chain);
    SubsetCount(UsedWallets(users, chain), UsedWallets(more, chain));
    SubsetCount(UsedInApp(users, chain), UsedInApp(more, chain));
    CountsAddUp(users, chain);
    CountsAddUp(more, chain);
  }

  /** The row has a wallet that was used. */
  ghost predicate ShowsUse(users: seq<Row>, row: Row, chain: Chain) {
    HasWallet(row) && var a := row.account.ethereumAddress.value; Check(chain, a, InApp(users, a)) == Ok(true)
  }

  /** The counts add up to the distinct used addresses, and inUse is that some row shows use. */
  lemma ResponseMeans(users: seq<Row>, chain: Chain)
    requires Outcome(users, chain).Ok?
    ensures var r := Outcome(users, chain).value;
            && r.external + r.inApp == |UsedWallets(users, chain)|
            && (r.inUse <==> r.external + r.inApp > 0)
            && (r.inUse <==> exists u :: u in users && ShowsUse(users, u, chain))
  {
    CountsAddUp(users, chain);
    var used := UsedWallets(users, chain);
    if used != {} {
      var a :| a in used;
      var i :| 0 <= i < |users| && HasWallet(users[i]) && users[i].account.ethereumAddress.value == a;
      assert users[i] in users && ShowsUse(users, users[i], chain);
    }
    if u :| u in users && ShowsUse(users, u, chain) {
      assert u.account.ethereumAddress.value in used;
    }
  }

  /** The balances an address may be asked for, in order. */
  function Asked(chain: Chain, addr: Bytes, inApp: bool): seq<Result<int>> {
    [chain.vehicles(addr), chain.devices(addr)] + if inApp then [chain.tokens(addr)] else []
  }

  /** All balances before the i-th are zero, so that it is asked for. */
  predicate Reached(asked: seq<Result<int>>, i: nat)
    requires i <= |asked|
  {
    forall j :: 0 <= j < i ==> asked[j] == Ok(0)
  }

  ghost predicate Finds(asked: seq<Result<int>>, i: nat) {
    i < |asked| && Reached(asked, i) && asked[i].Ok? && asked[i].value != 0
  }

  ghost predicate FailsAt(asked: seq<Result<int>>, i: nat) {
    i < |asked| && Reached(asked, i) && asked[i].Err?
  }

  /** What a check finds out: the first balance that is not zero decides, or fails; if all are zero there was no use. */
  lemma CheckExactly(chain: Chain, addr: Bytes, inApp: bool)
    ensures var asked := Asked(chain, addr, inApp);
            && (Check(chain, addr, inApp) == Ok(true) <==> exists i :: Finds(asked, i))
            && (Check(chain, addr, inApp).Err? <==> exists i :: FailsAt(asked, i))
            && (Check(chain, addr, inApp) == Ok(false) <==> Reached(asked, |asked|))
  {
    var asked := Asked(chain, addr, inApp);
    assert asked[0] == chain.vehicles(addr) && asked[1] == chain.devices(addr);
    assert inApp ==> asked[2] == chain.tokens(addr);
    assert Finds(asked, 0) || FailsAt(asked, 0) || asked[0] == Ok(0);
    assert asked[0] == Ok(0) ==> Finds(asked, 1) || FailsAt(asked, 1) || asked[1] == Ok(0);
    assert inApp && asked[0] == Ok(0) && asked[1] == Ok(0) ==>
             Finds(asked, 2) || FailsAt(asked, 2) || asked[2] == Ok(0);
  }

  /** No balance of a wallet among the rows fails to be told. */
  ghost predicate AllTold(users: seq<Row>, chain: Chain) {
    forall a :: a in Wallets(users) ==> chain.vehicles(a).Ok? && chain.devices(a).Ok? && chain.tokens(a).Ok?
  }

  /** The wallet has vehicles or devices, or it is in the app and has tokens. */
  ghost predicate HasHoldings(users: seq<Row>, chain: Chain, a: Bytes) {
    || chain.vehicles(a) != Ok(0) || chain.devices(a) != Ok(0)
    || (InApp(users, a) && chain.tokens(a) != Ok(0))
  }

  lemma UsedExactly(users: seq<Row>, chain: Chain, a: Bytes)
    requires a in Wallets(users) && AllTold(users, chain)
    ensures Check(chain, a, InApp(users, a)).Ok?
    ensures a in UsedWallets(users, chain) <==> HasHoldings(users, chain, a)
  {
    var asked := Asked(chain, a, InApp(users, a));
    CheckExactly(chain, a, InApp(users, a));
    assert asked[0] == chain.vehicles(a) && asked[1] == chain.devices(a);
    assert InApp(users, a) ==> asked[2] == chain.tokens(a);
  }

  /**
   In terms of balances, when all are told: the answer counts the distinct wallets with holdings, those in the app and
   those not, and the email is in use exactly if some row's wallet has any.
   */
  lemma ResponseCounts(users: seq<Row>, chain: Chain)
    requires AllTold(users, chain)
    ensures Outcome(users, chain).Ok?
    ensures var r := Outcome(users, chain).value;
            && r.inApp == |set a | a in Wallets(users) && HasHoldings(users, chain, a) && InApp(users, a)|
            && r.external == |set a | a in Wallets(users) && HasHoldings(users, chain, a) && !InApp(users, a)|
            && (r.inUse <==> exists u :: u in users && HasWallet(u)
                                         && HasHoldings(users, chain, u.account.ethereumAddress.value))
  {
    forall a | a in Wallets(users)
      ensures Check(chain, a, InApp(users, a)).Ok? && (a in UsedWallets(users, chain) <==> HasHoldings(users, chain, a))
    {
      UsedExactly(users, chain, a);
    }
    var used, inApp := UsedWallets(users, chain), UsedInApp(users, chain);
    assert inApp == set a | a in Wallets(users) && HasHoldings(users, chain, a) && InApp(users, a);
    assert used - inApp == set a | a in Wallets(users) && HasHoldings(users, chain, a) && !InApp(users, a);
    ResponseMeans(users, chain);
    HoldersAreUsers(users, chain);
  }

  lemma HoldersAreUsers(users: seq<Row>, chain: Chain)
    requires AllTold(users, chain)
    ensures (exists a :: a in UsedWallets(users, chain)) <==>
            exists u :: u in users && HasWallet(u) && HasHoldings(users, chain, u.account.ethereumAddress.value)
  {
    if a :| a in UsedWallets(users, chain) {
      UsedExactly(users, chain, a);
      var i :| 0 <= i < |users| && HasWallet(users[i]) && users[i].account.ethereumAddress.value == a;
      assert users[i] in users;
    }
    if u :| u in users && HasWallet(u) && HasHoldings(users, chain, u.account.ethereumAddress.value) {
      var a := u.account.ethereumAddress.value;
      assert a in Wallets(users);
      UsedExactly(users, chain, a);
    }
  }
}
