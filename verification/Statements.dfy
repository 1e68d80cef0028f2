/** How Insert, Update and Upsert obtain their statements: what is built, and the three shared caches. */
module Statements {
  import opened CacheKeys
  import opened CacheProtocol
  import opened ColumnNames
  import opened Text
  import opened UpsertQuery
  import opened Wrappers

  /** The functions of libraries that are not part of this model, as arbitrary pure functions. */
  datatype Library = Library(
    insertColumnSet: (Columns, seq<string>) -> (seq<string>, seq<string>),
    updateColumnSet: Columns -> seq<string>,
    isWhitelist: Columns -> bool,
    bindMapping: seq<string> -> Option<seq<nat>>,
    quote: string -> string)

  datatype CachedInsert = CachedInsert(query: string, valueMapping: seq<nat>, retMapping: seq<nat>)
  datatype CachedUpdate = CachedUpdate(query: string, valueMapping: seq<nat>)

  datatype InsertCall = InsertCall(columns: Columns, nzDefaults: seq<string>)
  datatype FullUpsert = FullUpsert(call: UpsertCall, opts: seq<UpsertOption>)

  const UsersTable := "\"users_api\".\"users\""

  function Without(names: seq<string>, name: string): seq<string> {
    if names == [] then [] else
      (if names[0] == name then [] else [names[0]]) + Without(names[1..], name)
  }

  /** strmangle.SetComplement of all columns and strmangle.SetIntersect of two lists. */
  function NotInBoth(names: seq<string>, xs: seq<string>, ys: seq<string>): seq<string> {
    if names == [] then [] else
      (if names[0] in xs && names[0] in ys then [] else [names[0]]) + NotInBoth(names[1..], xs, ys)
  }

  function Quoted(name: string): string {
    "\"" + name + "\""
  }

  /** strmangle.SetParamNames: the i-th name is set to the i-th parameter, counting from start. */
  function SetParamNames(names: seq<string>, start: nat): string {
    Join(ParamTexts(names, start), ",")
  }

  function ParamTexts(names: seq<string>, start: nat): seq<string> {
    seq(|names|, i requires 0 <= i < |names| => Quoted(names[i]) + "=$" + Itoa(start + i))
  }

  function InsertText(wl: seq<string>, ret: seq<string>, returning: bool): string {
    (if wl == [] then "INSERT INTO " + UsersTable + " DEFAULT VALUES"
     else "INSERT INTO " + UsersTable + " (\"" + Join(wl, "\",\"") + "\") VALUES (" + Placeholders(|wl|) + ")")
    + if returning then " RETURNING \"" + Join(ret, "\",\"") + "\"" else ""
  }

  function BuildInsert(lib: Library, call: InsertCall): Option<CachedInsert> {
    var (wl, ret) := lib.insertColumnSet(call.columns, call.nzDefaults);
    match (lib.bindMapping(wl), lib.bindMapping(ret))
    case (Some(values), Some(rets)) => Some(CachedInsert(InsertText(wl, ret, rets != []), values, rets))
    case _ => None
  }

  function UpdateColumns(lib: Library, columns: Columns): seq<string> {
    var wl := lib.updateColumnSet(columns);
    if lib.isWhitelist(columns) then wl else Without(wl, "created_at")
  }

  function BuildUpdate(lib: Library, columns: Columns): Option<CachedUpdate> {
    var wl := UpdateColumns(lib, columns);
    if wl == [] then None else
      match lib.bindMapping(wl + ["id"])
      case None => None
      case Some(values) =>
        var head := "UPDATE " + UsersTable + " SET " + SetParamNames(wl, 1);
        Some(CachedUpdate(head + " WHERE \"id\"=$" + Itoa(|wl| + 1), values))
  }

  function ConflictColumns(call: UpsertCall, update: seq<string>): seq<string> {
    if call.conflict == [] && call.updateOnConflict && update != [] then ["id"] else call.conflict
  }

  function UpsertReturns(insert: seq<string>, update: seq<string>): seq<string> {
    NotInBoth(Names(AllColumns), insert, update)
  }

  function UpsertStatement(lib: Library, call: UpsertCall, opts: seq<UpsertOption>): string {
    var insert, update := lib.insertColumnSet(call.insert, call.nzDefaults).0, lib.updateColumnSet(call.update);
    UpsertText(lib.quote, UsersTable, call.updateOnConflict, UpsertReturns(insert, update), update,
               ConflictColumns(call, update), insert, opts)
  }

  function BuildUpsert(lib: Library, u: FullUpsert): Option<CachedInsert> {
    var insert, update := lib.insertColumnSet(u.call.insert, u.call.nzDefaults).0, lib.updateColumnSet(u.call.update);
    var ret := UpsertReturns(insert, update);
    if u.call.updateOnConflict && update == [] then None else
      match (lib.bindMapping(insert), if ret == [] then Some([]) else lib.bindMapping(ret))
      case (Some(values), Some(rets)) => Some(CachedInsert(UpsertStatement(lib, u.call, u.opts), values, rets))
      case _ => None
  }

  ghost function Inserts(lib: Library): System<InsertCall, string, CachedInsert> {
    System((c: InsertCall) => CacheKey(c.columns, c.nzDefaults), (c: InsertCall) => BuildInsert(lib, c))
  }

  ghost function Updates(lib: Library): System<Columns, string, CachedUpdate> {
    System((c: Columns) => CacheKey(c, []), (c: Columns) => BuildUpdate(lib, c))
  }

  ghost function Upserts(lib: Library): System<FullUpsert, string, CachedInsert> {
    System((u: FullUpsert) => UpsertKey(u.call), (u: FullUpsert) => BuildUpsert(lib, u))
  }

  ghost function RealInserts(): iset<InsertCall> {
    iset c: InsertCall | RealColumns(c.columns.cols) && RealColumns(c.nzDefaults)
  }

  ghost function RealUpdates(): iset<Columns> {
    iset c: Columns | RealColumns(c.cols)
  }

  lemma InsertsFaithful(lib: Library)
    ensures Faithful(Inserts(lib), RealInserts())
  {
    forall a, b | a in RealInserts() && b in RealInserts() && Inserts(lib).key(a) == Inserts(lib).key(b)
      ensures a == b
    {
      CacheKeyInjective(a.columns, a.nzDefaults, b.columns, b.nzDefaults);
    }
  }

  lemma UpdatesFaithful(lib: Library)
    ensures Faithful(Updates(lib), RealUpdates())
  {
    forall a, b | a in RealUpdates() && b in RealUpdates() && Updates(lib).key(a) == Updates(lib).key(b)
      ensures a == b
    {
      CacheKeyInjective(a, [], b, []);
    }
  }

  /** In every interleaving, Insert executes what its own arguments build, and the cache holds only fresh statements. */
  lemma InsertCacheTransparent(lib: Library, steps: seq<Step<InsertCall>>)
    requires Uses(RealInserts(), steps)
    ensures var s := Run(Inserts(lib), Start(), steps);
            Transparent(Inserts(lib), s) && CacheFresh(Inserts(lib), RealInserts(), s.cache)
  {
    InsertsFaithful(lib);
    RunKeepsInv(Inserts(lib), RealInserts(), Start(), steps);
  }

  lemma UpdateCacheTransparent(lib: Library, steps: seq<Step<Columns>>)
    requires Uses(RealUpdates(), steps)
    ensures var s := Run(Updates(lib), Start(), steps);
            Transparent(Updates(lib), s) && CacheFresh(Updates(lib), RealUpdates(), s.cache)
  {
    UpdatesFaithful(lib);
    RunKeepsInv(Updates(lib), RealUpdates(), Start(), steps);
  }

  /** What the options of a call come to: its conflict target and its action, under the options in force. */
  function UpsertClause(lib: Library, u: FullUpsert): string {
    var update := lib.updateColumnSet(u.call.update);
    ClauseText(lib.quote, u.call.updateOnConflict, update, ConflictColumns(u.call, update), Effective(u.opts))
  }

  /** Calls that differ in their options only have the same conflict clause. */
  ghost predicate OptionsAgree(lib: Library, calls: iset<FullUpsert>) {
    forall a, b :: a in calls && b in calls && a.call == b.call && BuildUpsert(lib, a).Some? ==>
      UpsertClause(lib, a) == UpsertClause(lib, b)
  }

  /** It is enough that such calls have the same options in force. */
  lemma EffectiveOptionsAgree(lib: Library, calls: iset<FullUpsert>)
    requires forall a, b :: a in calls && b in calls && a.call == b.call ==> Effective(a.opts) == Effective(b.opts)
    ensures OptionsAgree(lib, calls)
  {
  }

  /** Calls that differ in their options only build the same statement exactly if they have the same conflict clause. */
  lemma OnlyTheClauseVaries(lib: Library, a: FullUpsert, b: FullUpsert)
    requires a.call == b.call && BuildUpsert(lib, a).Some?
    ensures BuildUpsert(lib, b) == BuildUpsert(lib, a) <==> UpsertClause(lib, a) == UpsertClause(lib, b)
  {
    var insert, update := lib.insertColumnSet(a.call.insert, a.call.nzDefaults).0, lib.updateColumnSet(a.call.update);
    OptionsShapeStatement(lib.quote, UsersTable, a.call.updateOnConflict, UpsertReturns(insert, update), update,
                          ConflictColumns(a.call, update), insert, a.opts, b.opts);
  }

  /** Real calls with one key differ in their options only. */
  lemma OneKeyOneClause(lib: Library, a: FullUpsert, b: FullUpsert)
    requires a.call.Real() && b.call.Real() && BuildUpsert(lib, a).Some?
    ensures (UpsertKey(a.call) == UpsertKey(b.call) ==> BuildUpsert(lib, b) == BuildUpsert(lib, a)) <==>
            (a.call == b.call ==> UpsertClause(lib, a) == UpsertClause(lib, b))
  {
    UpsertKeyInjective(a.call, b.call);
    if a.call == b.call {
      OnlyTheClauseVaries(lib, a, b);
    }
  }

  lemma UpsertsFaithful(lib: Library, calls: iset<FullUpsert>)
    requires forall u :: u in calls ==> u.call.Real()
    ensures Faithful(Upserts(lib), calls) <==> OptionsAgree(lib, calls)
  {
    var sys := Upserts(lib);
    if OptionsAgree(lib, calls) {
      forall a, b | a in calls && b in calls && sys.key(a) == sys.key(b) && sys.build(a).Some?
        ensures sys.build(b) == sys.build(a)
      {
        OneKeyOneClause(lib, a, b);
      }
    }
    if Faithful(sys, calls) {
      forall a, b | a in calls && b in calls && a.call == b.call && BuildUpsert(lib, a).Some?
        ensures UpsertClause(lib, a) == UpsertClause(lib, b)
      {
        assert sys.key(a) == sys.key(b) && sys.build(a) == BuildUpsert(lib, a);
        assert sys.build(b) == BuildUpsert(lib, b);
        OnlyTheClauseVaries(lib, a, b);
      }
    }
  }

  /** Upsert's cache cannot be noticed in any interleaving exactly when calls with equal keys have equal clauses. */
  lemma UpsertCacheTransparent(lib: Library, calls: iset<FullUpsert>)
    requires forall u :: u in calls ==> u.call.Real()
    ensures OptionsAgree(lib, calls) <==>
            forall steps: seq<Step<FullUpsert>> :: Uses(calls, steps) ==>
              Transparent(Upserts(lib), Run(Upserts(lib), Start(), steps))
  {
    TransparentExactlyWhenFaithful(Upserts(lib), calls);
    UpsertsFaithful(lib, calls);
  }

  /** Two calls that differ in their options only, one after the other. */
  ghost function InTurn(lib: Library, call: UpsertCall, first: seq<UpsertOption>, second: seq<UpsertOption>)
    : State<FullUpsert, string, CachedInsert>
  {
    Run(Upserts(lib), Start(), Solo(0, FullUpsert(call, first), true) + Solo(0, FullUpsert(call, second), true))
  }

  /** The options are not in the key: the second caller gets the first one's clause, right or wrong. */
  lemma OptionsLeak(lib: Library, call: UpsertCall, first: seq<UpsertOption>, second: seq<UpsertOption>)
    requires BuildUpsert(lib, FullUpsert(call, [])).Some?
    ensures Transparent(Upserts(lib), InTurn(lib, call, first, second)) <==>
            UpsertClause(lib, FullUpsert(call, first)) == UpsertClause(lib, FullUpsert(call, second))
  {
    var sys, a, b := Upserts(lib), FullUpsert(call, first), FullUpsert(call, second);
    OnlyTheClauseVaries(lib, FullUpsert(call, []), a);
    OnlyTheClauseVaries(lib, a, b);
    InTurnExactly(sys, a, b);
  }

  /** A conflict target given by one caller is executed for the next, who gave none: right only if the default. */
  lemma TargetLeaks(lib: Library, call: UpsertCall, target: string)
    requires BuildUpsert(lib, FullUpsert(call, [])).Some? && target != ""
    ensures Transparent(Upserts(lib), InTurn(lib, call, [ConflictTarget(target)], [])) <==>
            target == TargetText(lib.quote, ConflictColumns(call, lib.updateColumnSet(call.update)), NoOptions)
  {
    var update := lib.updateColumnSet(call.update);
    OptionsLeak(lib, call, [ConflictTarget(target)], []);
    TargetAlone(target);
    ClausesAgree(lib.quote, call.updateOnConflict, update, ConflictColumns(call, update),
                 UpsertOptions(target, ""), NoOptions);
  }

  /** A library that takes columns as they are given, and knows the table's. */
  ghost function PlainLibrary(): Library {
    Library((c: Columns, nz: seq<string>) => (c.cols, []), (c: Columns) => c.cols, (c: Columns) => true,
            BindPlainly, Quoted)
  }

  function BindPlainly(names: seq<string>): Option<seq<nat>> {
    if forall i :: 0 <= i < |names| ==> names[i] in Names(AllColumns) then
      Some(seq(|names|, i requires 0 <= i < |names| => PlaceIn(Names(AllColumns), names[i])))
    else None
  }

  function PlaceIn(names: seq<string>, name: string): nat {
    if names == [] || names[0] == name then 0 else 1 + PlaceIn(names[1..], name)
  }

  /** The failure happens: with that library, for an upsert of the id with any conflict target but the default one. */
  lemma TargetLeaksSomewhere(target: string)
    requires target != "" && target != "(\"id\")"
    ensures var call := UpsertCall(true, [], Columns(2, ["id"]), Columns(2, ["id"]), []);
            !Transparent(Upserts(PlainLibrary()), InTurn(PlainLibrary(), call, [ConflictTarget(target)], []))
  {
    var call := UpsertCall(true, [], Columns(2, ["id"]), Columns(2, ["id"]), []);
    PlainUpsertBuilds(call);
    DefaultTarget();
    TargetLeaks(PlainLibrary(), call, target);
  }

  lemma DefaultTarget()
    ensures TargetText(Quoted, ["id"], NoOptions) == "(\"id\")"
  {
    assert Quoted("id") == "\"id\"";
    assert Each(Quoted, ["id"]) == [Quoted("id")];
  }

  lemma PlainUpsertBuilds(call: UpsertCall)
    requires call.insert.cols == call.update.cols == ["id"]
    ensures BuildUpsert(PlainLibrary(), FullUpsert(call, [])).Some?
  {
    assert Names(AllColumns)[0] == "id";
    NotInBothMembers(Names(AllColumns), ["id"], ["id"]);
  }

  lemma {:induction false} NotInBothMembers(names: seq<string>, xs: seq<string>, ys: seq<string>)
    ensures forall c :: c in NotInBoth(names, xs, ys) <==> c in names && !(c in xs && c in ys)
  {
    if names != [] {
      NotInBothMembers(names[1..], xs, ys);
      assert forall c :: c in names <==> c == names[0] || c in names[1..];
    }
  }

  /** A name that is not a column can be served another list's statement, where a fresh build would not give it. */
  lemma UnknownColumnsLeak(lib: Library)
    requires BuildUpdate(lib, WholeName).Some? && BuildUpdate(lib, SplitName) != BuildUpdate(lib, WholeName)
    ensures !Transparent(Updates(lib), Run(Updates(lib), Start(), Solo(0, WholeName, true) + Solo(0, SplitName, true)))
  {
    KeyClashOffTheTable();
    ClashIsSeen(Updates(lib), WholeName, SplitName);
  }

  /** It happens with that library: the list with the unknown name would not be built at all. */
  lemma UnknownColumnsLeakSomewhere()
    ensures BuildUpdate(PlainLibrary(), SplitName) == None
    ensures !Transparent(Updates(PlainLibrary()),
                         Run(Updates(PlainLibrary()), Start(), Solo(0, WholeName, true) + Solo(0, SplitName, true)))
  {
    PlainUpdate(WholeName);
    PlainUpdate(SplitName);
    assert Names(AllColumns)[11] == EthereumChallengeSent.Name();
    NoColumnStartsSo();
    assert SplitName.cols[1] == "_sent";
    UnknownColumnsLeak(PlainLibrary());
  }

  ghost predicate Known(names: seq<string>) {
    forall i :: 0 <= i < |names| ==> names[i] in Names(AllColumns)
  }

  /** The library takes the columns it is given as a whitelist, and binds just those that the table has. */
  ghost predicate TakesAsGiven(lib: Library) {
    && (forall c: Columns :: lib.updateColumnSet(c) == c.cols)
    && (forall c: Columns :: lib.isWhitelist(c))
    && (forall names: seq<string> :: lib.bindMapping(names).Some? <==> Known(names))
  }

  /** An update of these columns can be built: there are some, and the table has them all. */
  ghost predicate Buildable(c: Columns) {
    c.cols != [] && Known(c.cols)
  }

  lemma BuildsExactly(lib: Library, c: Columns)
    requires TakesAsGiven(lib)
    ensures BuildUpdate(lib, c).Some? <==> Buildable(c)
  {
    var names := c.cols + ["id"];
    assert Names(AllColumns)[0] == "id";
    assert UpdateColumns(lib, c) == c.cols;
    assert names[|c.cols|] == "id" && forall i :: 0 <= i < |c.cols| ==> names[i] == c.cols[i];
  }

  /** queries.BindMapping succeeds exactly for columns of the table. */
  ghost predicate BindsKnown(lib: Library) {
    forall names: seq<string> :: lib.bindMapping(names).Some? <==> Known(names)
  }

  /** When an insert can be built. */
  lemma InsertBuildsExactly(lib: Library, call: InsertCall)
    requires BindsKnown(lib)
    ensures var sets := lib.insertColumnSet(call.columns, call.nzDefaults);
            BuildInsert(lib, call).Some? <==> Known(sets.0) && Known(sets.1)
  {
  }

  /** When an update can be: there is something to set, and the table has it. */
  lemma UpdateBuildsExactly(lib: Library, columns: Columns)
    requires BindsKnown(lib)
    ensures BuildUpdate(lib, columns).Some? <==> UpdateColumns(lib, columns) != [] && Known(UpdateColumns(lib, columns))
  {
    var wl := UpdateColumns(lib, columns);
    var names := wl + ["id"];
    assert Names(AllColumns)[0] == "id";
    assert names[|wl|] == "id" && forall i :: 0 <= i < |wl| ==> names[i] == wl[i];
  }

  /** When an upsert can be: the table has what is inserted, and there is something to update if conflicts are to be. */
  lemma UpsertBuildsExactly(lib: Library, u: FullUpsert)
    requires BindsKnown(lib)
    ensures BuildUpsert(lib, u).Some? <==>
            && Known(lib.insertColumnSet(u.call.insert, u.call.nzDefaults).0)
            && (u.call.updateOnConflict ==> lib.updateColumnSet(u.call.update) != [])
  {
    var insert, update := lib.insertColumnSet(u.call.insert, u.call.nzDefaults).0, lib.updateColumnSet(u.call.update);
    NotInBothMembers(Names(AllColumns), insert, update);
    assert Known(UpsertReturns(insert, update));
  }

  lemma KnownAreReal(names: seq<string>)
    requires Known(names)
    ensures RealColumns(names)
  {
    forall i | 0 <= i < |names|
      ensures IsColumn(names[i])
    {
      var k :| 0 <= k < |AllColumns| && Names(AllColumns)[k] == names[i];
      assert AllColumns[k].Name() == names[i];
    }
  }

  /** A list that cannot be built has the key of one that can. */
  ghost predicate Masquerades(calls: iset<Columns>) {
    exists a, b :: a in calls && b in calls && Buildable(a) && !Buildable(b) && CacheKey(a, []) == CacheKey(b, [])
  }

  /** As the caller sees it: it has the kind and, run together, the names of one that can. */
  lemma MasqueradesPlainly(calls: iset<Columns>)
    requires forall c :: c in calls ==> StartsPlainly(c.cols)
    ensures Masquerades(calls) <==>
            exists a, b :: a in calls && b in calls && Buildable(a) && !Buildable(b)
                           && a.kind == b.kind && Concat(a.cols) == Concat(b.cols)
  {
    forall a, b | a in calls && b in calls
      ensures CacheKey(a, []) == CacheKey(b, []) <==> a.kind == b.kind && Concat(a.cols) == Concat(b.cols)
    {
      KeysEqualExactly(a, b);
    }
  }

  lemma OneKeyBuildsOne(lib: Library, a: Columns, b: Columns)
    requires TakesAsGiven(lib) && Buildable(a) && CacheKey(a, []) == CacheKey(b, [])
    ensures BuildUpdate(lib, b) == BuildUpdate(lib, a) <==> Buildable(b)
  {
    BuildsExactly(lib, a);
    BuildsExactly(lib, b);
    if Buildable(b) {
      KnownAreReal(a.cols);
      KnownAreReal(b.cols);
      CacheKeyInjective(a, [], b, []);
    }
  }

  lemma UpdatesFaithfulExactly(lib: Library, calls: iset<Columns>)
    requires TakesAsGiven(lib)
    ensures Faithful(Updates(lib), calls) <==> !Masquerades(calls)
  {
    var sys := Updates(lib);
    if !Masquerades(calls) {
      forall a, b | a in calls && b in calls && sys.key(a) == sys.key(b) && sys.build(a).Some?
        ensures sys.build(b) == sys.build(a)
      {
        BuildsExactly(lib, a);
        OneKeyBuildsOne(lib, a, b);
      }
    } else {
      var a, b :| a in calls && b in calls && Buildable(a) && !Buildable(b) && CacheKey(a, []) == CacheKey(b, []);
      BuildsExactly(lib, a);
      OneKeyBuildsOne(lib, a, b);
      assert sys.key(a) == CacheKey(a, []) && sys.key(b) == CacheKey(b, []);
      assert sys.build(a) == BuildUpdate(lib, a) && sys.build(b) == BuildUpdate(lib, b);
    }
  }

  /**
   Update's cache cannot be noticed in any interleaving, whatever names the lists have, exactly when no list that cannot
   be built has the key of one that can.
   */
  lemma UpdateTransparentExactly(lib: Library, calls: iset<Columns>)
    requires TakesAsGiven(lib)
    ensures !Masquerades(calls) <==>
            forall steps: seq<Step<Columns>> :: Uses(calls, steps) ==>
              Transparent(Updates(lib), Run(Updates(lib), Start(), steps))
  {
    TransparentExactlyWhenFaithful(Updates(lib), calls);
    UpdatesFaithfulExactly(lib, calls);
  }

  /** The plain library is such a one, so the failure is real: for the two lists with one key. */
  lemma PlainLibraryTakesAsGiven()
    ensures TakesAsGiven(PlainLibrary()) && Masquerades(iset{WholeName, SplitName})
  {
    assert Names(AllColumns)[11] == EthereumChallengeSent.Name();
    assert WholeName.cols[0] == EthereumChallengeSent.Name();
    NoColumnStartsSo();
    assert SplitName.cols[1] == "_sent";
    KeyClashOffTheTable();
  }

  lemma PlainUpdate(columns: Columns)
    requires columns.cols != []
    ensures BuildUpdate(PlainLibrary(), columns).Some? <==>
            forall i :: 0 <= i < |columns.cols| ==> columns.cols[i] in Names(AllColumns)
  {
    var names := columns.cols + ["id"];
    assert Names(AllColumns)[0] == "id";
    assert forall i :: 0 <= i < |columns.cols| ==> names[i] == columns.cols[i];
  }

  lemma NoColumnStartsSo()
    ensures "_sent" !in Names(AllColumns)
  {
    forall i | 0 <= i < |AllColumns|
      ensures Names(AllColumns)[i] != "_sent"
    {
      NameStart(AllColumns[i].Name());
    }
  }

  /** The three caches of the package, and one call at a time on them. */
  class UserStatements {
    const lib: Library
    ghost const upserts: iset<FullUpsert>
    var insertCache: map<string, CachedInsert>
    var updateCache: map<string, CachedUpdate>
    var upsertCache: map<string, CachedInsert>

    ghost predicate Valid()
      reads this
    {
      && (forall u :: u in upserts ==> u.call.Real())
      && OptionsAgree(lib, upserts)
      && CacheFresh(Inserts(lib), RealInserts(), insertCache)
      && CacheFresh(Updates(lib), RealUpdates(), updateCache)
      && CacheFresh(Upserts(lib), upserts, upsertCache)
    }

    constructor (lib: Library, ghost upserts: iset<FullUpsert>)
      requires forall u :: u in upserts ==> u.call.Real()
      requires OptionsAgree(lib, upserts)
      ensures Valid() && this.lib == lib && this.upserts == upserts
      ensures insertCache == map[] && updateCache == map[] && upsertCache == map[]
    {
      this.lib := lib;
      this.upserts := upserts;
      insertCache, updateCache, upsertCache := map[], map[], map[];
    }

    /** Executes the statement of its own arguments, if one can be built; a success is remembered. */
    method Insert(columns: Columns, nzDefaults: seq<string>, ok: bool) returns (executed: Option<CachedInsert>)
      requires Valid() && InsertCall(columns, nzDefaults) in RealInserts()
      modifies this`insertCache
      ensures Valid()
      ensures executed == BuildInsert(lib, InsertCall(columns, nzDefaults))
      ensures insertCache == Run(Inserts(lib), State(old(insertCache), map[], []),
                                 Solo(0, InsertCall(columns, nzDefaults), ok)).cache
    {
      InsertsFaithful(lib);
      SoloCall(Inserts(lib), RealInserts(), insertCache, InsertCall(columns, nzDefaults), ok);
      var key := MakeCacheKey(columns, nzDefaults);
      var cached := key in insertCache;
      if cached {
        executed := Some(insertCache[key]);
      } else {
        executed := FreshInsert(columns, nzDefaults);
        if executed.None? {
          return;
        }
      }
      if ok && !cached {
        insertCache := insertCache[key := executed.value];
      }
    }

    method FreshInsert(columns: Columns, nzDefaults: seq<string>) returns (built: Option<CachedInsert>)
      ensures built == BuildInsert(lib, InsertCall(columns, nzDefaults))
    {
      var (wl, returnColumns) := lib.insertColumnSet(columns, nzDefaults);
      var valueMapping := lib.bindMapping(wl);
      if valueMapping.None? {
        return None;
      }
      var retMapping := lib.bindMapping(returnColumns);
      if retMapping.None? {
        return None;
      }
      var query := InsertText(wl, returnColumns, |retMapping.value| != 0);
      built := Some(CachedInsert(query, valueMapping.value, retMapping.value));
    }

    method Update(columns: Columns, ok: bool) returns (executed: Option<CachedUpdate>)
      requires Valid() && columns in RealUpdates()
      modifies this`updateCache
      ensures Valid()
      ensures executed == BuildUpdate(lib, columns)
      ensures updateCache == Run(Updates(lib), State(old(updateCache), map[], []), Solo(0, columns, ok)).cache
    {
      UpdatesFaithful(lib);
      SoloCall(Updates(lib), RealUpdates(), updateCache, columns, ok);
      var key := MakeCacheKey(columns, []);
      var cached := key in updateCache;
      if cached {
        executed := Some(updateCache[key]);
      } else {
        executed := FreshUpdate(columns);
        if executed.None? {
          return;
        }
      }
      if ok && !cached {
        updateCache := updateCache[key := executed.value];
      }
    }

    method FreshUpdate(columns: Columns) returns (built: Option<CachedUpdate>)
      ensures built == BuildUpdate(lib, columns)
    {
      var wl := lib.updateColumnSet(columns);
      if !lib.isWhitelist(columns) {
        wl := Without(wl, "created_at");
      }
      if |wl| == 0 {
        return None;
      }
      var query := "UPDATE " + UsersTable + " SET " + SetParamNames(wl, 1) + " WHERE \"id\"=$" + Itoa(|wl| + 1);
      var valueMapping := lib.bindMapping(wl + ["id"]);
      if valueMapping.None? {
        return None;
      }
      built := Some(CachedUpdate(query, valueMapping.value));
    }

    method Upsert(call: UpsertCall, opts: seq<UpsertOption>, ok: bool) returns (executed: Option<CachedInsert>)
      requires Valid() && FullUpsert(call, opts) in upserts
      modifies this`upsertCache
      ensures Valid()
      ensures executed == BuildUpsert(lib, FullUpsert(call, opts))
      ensures upsertCache == Run(Upserts(lib), State(old(upsertCache), map[], []),
                                 Solo(0, FullUpsert(call, opts), ok)).cache
    {
      UpsertsFaithful(lib, upserts);
      SoloCall(Upserts(lib), upserts, upsertCache, FullUpsert(call, opts), ok);
      var key := MakeUpsertKey(call);
      var cached := key in upsertCache;
      if cached {
        executed := Some(upsertCache[key]);
      } else {
        executed := FreshUpsert(call, opts);
        if executed.None? {
          return;
        }
      }
      if ok && !cached {
        upsertCache := upsertCache[key := executed.value];
      }
    }

    method FreshUpsert(call: UpsertCall, opts: seq<UpsertOption>) returns (built: Option<CachedInsert>)
      ensures built == BuildUpsert(lib, FullUpsert(call, opts))
    {
      var insert := lib.insertColumnSet(call.insert, call.nzDefaults).0;
      var update := lib.updateColumnSet(call.update);
      if call.updateOnConflict && |update| == 0 {
        return None;
      }
      var ret := NotInBoth(Names(AllColumns), insert, update);
      var conflict := call.conflict;
      if |conflict| == 0 && call.updateOnConflict && |update| != 0 {
        conflict := ["id"];
      }
      var query := BuildUpsertQuery(lib.quote, UsersTable, call.updateOnConflict, ret, update, conflict, insert, opts);
      var valueMapping := lib.bindMapping(insert);
      if valueMapping.None? {
        return None;
      }
      var retMapping: Option<seq<nat>> := Some([]);
      if |ret| != 0 {
        retMapping := lib.bindMapping(ret);
        if retMapping.None? {
          return None;
        }
      }
      built := Some(CachedInsert(query, valueMapping.value, retMapping.value));
    }
  }
}
