/** The text keys under which built statements are remembered, and why no two calls share one. */
module CacheKeys {
  import opened ColumnNames
  import opened Text

  /** boil.Columns: which columns a call asks for, as a kind and a list of names. */
  datatype Columns = Columns(kind: int, cols: seq<string>)

  datatype UpsertCall = UpsertCall(
    updateOnConflict: bool, conflict: seq<string>, update: Columns, insert: Columns, nzDefaults: seq<string>)
  {
    ghost predicate Real() {
      RealColumns(conflict) && RealColumns(update.cols) && RealColumns(insert.cols) && RealColumns(nzDefaults)
    }
  }

  function DefaultsPart(nzDefaults: seq<string>): string {
    if nzDefaults == [] then "" else "." + Concat(nzDefaults)
  }

  function ColumnsPart(columns: Columns): string {
    Itoa(columns.kind) + Concat(columns.cols)
  }

  function CacheKey(columns: Columns, nzDefaults: seq<string>): string {
    ColumnsPart(columns) + DefaultsPart(nzDefaults)
  }

  function DefaultsSection(call: UpsertCall): string {
    "." + Concat(call.nzDefaults)
  }

  function InsertSection(call: UpsertCall): string {
    "." + (ColumnsPart(call.insert) + DefaultsSection(call))
  }

  function UpdateSection(call: UpsertCall): string {
    "." + (ColumnsPart(call.update) + InsertSection(call))
  }

  function ConflictSection(call: UpsertCall): string {
    "." + (Concat(call.conflict) + UpdateSection(call))
  }

  /** The key Upsert assembles: a flag and four sections, each starting with a dot. */
  function UpsertKey(call: UpsertCall): string {
    (if call.updateOnConflict then "t" else "f") + ConflictSection(call)
  }

  /** Writes every name at the end of a buffer. */
  method AppendAll(buf: string, names: seq<string>) returns (out: string)
    ensures out == buf + Concat(names)
  {
    out := buf;
    for i := 0 to |names|
      invariant out == buf + Concat(names[..i])
    {
      assert names[..i + 1] == names[..i] + [names[i]];
      ConcatSnoc(names[..i], names[i]);
      out := out + names[i];
    }
    assert names[..|names|] == names;
  }

  method MakeCacheKey(columns: Columns, nzDefaults: seq<string>) returns (str: string)
    ensures str == CacheKey(columns, nzDefaults)
  {
    var buf := Itoa(columns.kind);
    buf := AppendAll(buf, columns.cols);
    if |nzDefaults| != 0 {
      buf := buf + ".";
    }
    str := AppendAll(buf, nzDefaults);
  }

  /** Writes a section of columns. */
  method AppendColumns(buf: string, columns: Columns) returns (out: string)
    ensures out == buf + ("." + ColumnsPart(columns))
  {
    out := buf + ".";
    out := out + Itoa(columns.kind);
    out := AppendAll(out, columns.cols);
  }

  method MakeUpsertKey(call: UpsertCall) returns (key: string)
    ensures key == UpsertKey(call)
  {
    var buf := if call.updateOnConflict then "t" else "f";
    ghost var flag := buf;
    buf := buf + ".";
    buf := AppendAll(buf, call.conflict);
    assert buf == flag + ("." + Concat(call.conflict));
    ghost var conflict := buf;
    buf := AppendColumns(buf, call.update);
    ghost var update := buf;
    buf := AppendColumns(buf, call.insert);
    ghost var insert := buf;
    buf := buf + ".";
    key := AppendAll(buf, call.nzDefaults);
    assert key == insert + DefaultsSection(call);
    SectionsNest(flag, call, conflict, update, insert);
  }

  lemma SectionsNest(flag: string, call: UpsertCall, conflict: string, update: string, insert: string)
    requires conflict == flag + ("." + Concat(call.conflict))
    requires update == conflict + ("." + ColumnsPart(call.update))
    requires insert == update + ("." + ColumnsPart(call.insert))
    ensures insert + DefaultsSection(call) == flag + ConflictSection(call)
  {
    Nest(flag, Concat(call.conflict), UpdateSection(call));
    Nest(conflict, ColumnsPart(call.update), InsertSection(call));
    Nest(update, ColumnsPart(call.insert), DefaultsSection(call));
  }

  lemma Nest(before: string, part: string, after: string)
    ensures before + ("." + part) + after == before + ("." + (part + after))
  {
  }

  lemma AfterNumeral(names: seq<string>, x: string)
    requires RealColumns(names) && Terminator(x)
    ensures Concat(names) + x == "" || !IsNumeral((Concat(names) + x)[0])
  {
    ConcatStart(names, x);
  }

  /** A kind and its column list are read back from a key, whatever section follows them. */
  lemma ColumnsPartDecodes(a: Columns, x: string, b: Columns, y: string)
    requires RealColumns(a.cols) && RealColumns(b.cols)
    requires Terminator(x) && Terminator(y)
    requires ColumnsPart(a) + x == ColumnsPart(b) + y
    ensures a == b && x == y
  {
    AfterNumeral(a.cols, x);
    AfterNumeral(b.cols, y);
    var u, v := Concat(a.cols) + x, Concat(b.cols) + y;
    NumeralSplits(a, x);
    NumeralSplits(b, y);
    ItoaDecodes(a.kind, u, b.kind, v);
    ConcatDecodes(a.cols, x, b.cols, y);
  }

  lemma NumeralSplits(a: Columns, x: string)
    ensures ColumnsPart(a) + x == Itoa(a.kind) + (Concat(a.cols) + x)
  {
  }

  lemma NamesDecode(cs: seq<string>, ds: seq<string>)
    requires RealColumns(cs) && RealColumns(ds)
    requires Concat(cs) == Concat(ds)
    ensures cs == ds
  {
    assert Concat(cs) + "" == Concat(cs) && Concat(ds) + "" == Concat(ds);
    ConcatDecodes(cs, "", ds, "");
  }

  /** The key of Insert and Update tells any two lists of real columns apart, of any length. */
  lemma CacheKeyInjective(a: Columns, nzA: seq<string>, b: Columns, nzB: seq<string>)
    requires RealColumns(a.cols) && RealColumns(nzA) && RealColumns(b.cols) && RealColumns(nzB)
    ensures CacheKey(a, nzA) == CacheKey(b, nzB) <==> a == b && nzA == nzB
  {
    if CacheKey(a, nzA) == CacheKey(b, nzB) {
      ColumnsPartDecodes(a, DefaultsPart(nzA), b, DefaultsPart(nzB));
      if nzA != [] {
        assert DefaultsPart(nzA)[1..] == Concat(nzA) && DefaultsPart(nzB)[1..] == Concat(nzB);
        NamesDecode(nzA, nzB);
      }
    }
  }

  /** The names, written one after the other, do not start with a digit or a sign. */
  predicate StartsPlainly(names: seq<string>) {
    Concat(names) == "" || !IsNumeral(Concat(names)[0])
  }

  /** Names of columns or not, two lists have one key exactly if kind and concatenation are the same. */
  lemma KeysEqualExactly(a: Columns, b: Columns)
    requires StartsPlainly(a.cols) && StartsPlainly(b.cols)
    ensures CacheKey(a, []) == CacheKey(b, []) <==> a.kind == b.kind && Concat(a.cols) == Concat(b.cols)
  {
    assert CacheKey(a, []) == Itoa(a.kind) + Concat(a.cols) && CacheKey(b, []) == Itoa(b.kind) + Concat(b.cols);
    if CacheKey(a, []) == CacheKey(b, []) {
      ItoaDecodes(a.kind, Concat(a.cols), b.kind, Concat(b.cols));
    }
  }

  /** Equal texts stay equal when the dot that starts them is dropped. */
  lemma DropDot(x: string, y: string)
    requires "." + x == "." + y
    ensures x == y
  {
    SplitEqual(".", x, ".", y);
  }

  /** The key of Upsert tells any two calls apart, up to the options that are not part of it. */
  lemma UpsertKeyInjective(a: UpsertCall, b: UpsertCall)
    requires a.Real() && b.Real()
    ensures UpsertKey(a) == UpsertKey(b) <==> a == b
  {
    if UpsertKey(a) == UpsertKey(b) {
      var f, g := if a.updateOnConflict then "t" else "f", if b.updateOnConflict then "t" else "f";
      SplitEqual(f, ConflictSection(a), g, ConflictSection(b));
      DropDot(Concat(a.conflict) + UpdateSection(a), Concat(b.conflict) + UpdateSection(b));
      ConcatDecodes(a.conflict, UpdateSection(a), b.conflict, UpdateSection(b));
      DropDot(ColumnsPart(a.update) + InsertSection(a), ColumnsPart(b.update) + InsertSection(b));
      ColumnsPartDecodes(a.update, InsertSection(a), b.update, InsertSection(b));
      DropDot(ColumnsPart(a.insert) + DefaultsSection(a), ColumnsPart(b.insert) + DefaultsSection(b));
      ColumnsPartDecodes(a.insert, DefaultsSection(a), b.insert, DefaultsSection(b));
      DropDot(Concat(a.nzDefaults), Concat(b.nzDefaults));
      NamesDecode(a.nzDefaults, b.nzDefaults);
    }
  }

  lemma ConcatOfTwo(s: string, t: string)
    ensures Concat([s, t]) == Concat([s + t]) == s + t
  {
    assert [s, t][1..] == [t];
    ConcatSnoc([s], t);
    assert [s] + [t] == [s, t];
    ConcatSnoc([], s);
    ConcatSnoc([], s + t);
  }

  const WholeName := Columns(2, ["ethereum_challenge_sent"])
  const SplitName := Columns(2, ["ethereum_challenge", "_sent"])

  /** Off the table's columns the key is ambiguous: these two lists differ and share a key. */
  lemma KeyClashOffTheTable()
    ensures WholeName != SplitName && RealColumns(WholeName.cols)
    ensures CacheKey(WholeName, []) == CacheKey(SplitName, [])
  {
    assert EthereumChallengeSent.Name() == "ethereum_challenge_sent";
    assert "ethereum_challenge_sent" == "ethereum_challenge" + "_sent";
    ConcatOfTwo("ethereum_challenge", "_sent");
    assert |WholeName.cols| == 1 && |SplitName.cols| == 2;
  }
}
