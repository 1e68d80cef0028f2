/** The migration of ethereum_address from hex text to bytes, and back. */
module AddressMigration {
  import CheckEmail
  import opened Text
  import opened Users
  import opened Wrappers

  function HexDigit(v: nat): char
    requires v < 16
  {
    if v < 10 then '0' + v as char else 'a' + (v - 10) as char
  }

  /** Digits of either case are read. */
  function HexValue(c: char): (v: Option<nat>)
    ensures v.Some? ==> v.value < 16
  {
    if '0' <= c <= '9' then Some((c - '0') as nat)
    else if 'a' <= c <= 'f' then Some((c - 'a') as nat + 10)
    else if 'A' <= c <= 'F' then Some((c - 'A') as nat + 10)
    else None
  }

  /** encode(b, 'hex'): two lower-case digits for each byte (section 8 of RFC 4648). */
  function Encode(b: Bytes): (s: string)
    ensures |s| == 2 * |b|
  {
    if b == [] then "" else [HexDigit(b[0] / 16), HexDigit(b[0] % 16)] + Encode(b[1..])
  }

  /** Blanks between pairs of digits are skipped. */
  predicate IsBlank(c: char) {
    c == ' ' || c == '\n' || c == '\t' || c == '\r'
  }

  function Packed(s: string): (r: string)
    ensures |r| <= |s|
  {
    if s == "" then "" else if IsBlank(s[0]) then Packed(s[1..]) else [s[0]] + Packed(s[1..])
  }

  /** decode(s, 'hex'): fails on a digit without a second one, and on a character that is neither digit nor blank. */
  function Decode(s: string): Result<Bytes> {
    if s == "" then Ok([])
    else if IsBlank(s[0]) then Decode(s[1..])
    else if |s| == 1 then Err
    else
      var hi, lo, rest := HexValue(s[0]), HexValue(s[1]), Decode(s[2..]);
      if hi.None? || lo.None? || rest.Err? then Err else Ok([hi.value * 16 + lo.value] + rest.value)
  }

  /** substr(s, 3) */
  function FromThird(s: string): string {
    if |s| <= 2 then "" else s[2..]
  }

  function LowerDigit(c: char): char {
    if 'A' <= c <= 'F' then c - 'A' + 'a' else c
  }

  function Lower(s: string): (r: string)
    ensures |r| == |s|
  {
    if s == "" then "" else [LowerDigit(s[0])] + Lower(s[1..])
  }

  /** Digits and their values. */
  lemma DigitValue(v: nat)
    requires v < 16
    ensures HexValue(HexDigit(v)) == Some(v) && !IsBlank(HexDigit(v))
  {
  }

  lemma ValueDigit(c: char)
    requires HexValue(c).Some?
    ensures HexDigit(HexValue(c).value) == LowerDigit(c)
  {
  }

  lemma Nibbles(hi: nat, lo: nat)
    requires hi < 16 && lo < 16
    ensures (hi * 16 + lo) / 16 == hi && (hi * 16 + lo) % 16 == lo
  {
  }

  const LowerDigits := "0123456789abcdef"
  const UpperDigits := "0123456789ABCDEF"

  /** The i-th byte's digits stand at 2i and 2i + 1, the high one first. */
  lemma {:induction false} EncodedAt(b: Bytes, i: nat)
    requires i < |b|
    ensures Encode(b)[2 * i] == LowerDigits[b[i] / 16] && Encode(b)[2 * i + 1] == LowerDigits[b[i] % 16]
  {
    if i == 0 {
      DigitIsListed(b[0] / 16);
      DigitIsListed(b[0] % 16);
    } else {
      EncodedAt(b[1..], i - 1);
      assert Encode(b)[2..] == Encode(b[1..]);
      assert Encode(b)[2 * i] == Encode(b)[2..][2 * (i - 1)] && Encode(b)[2 * i + 1] == Encode(b)[2..][2 * (i - 1) + 1];
    }
  }

  lemma DigitIsListed(v: nat)
    requires v < 16
    ensures HexDigit(v) == LowerDigits[v]
  {
  }

  /** A digit's value is its place in the list of digits, of either case. */
  lemma ValueIsPlace(c: char, v: nat)
    requires v < 16
    ensures HexValue(c) == Some(v) <==> c == LowerDigits[v] || c == UpperDigits[v]
  {
  }

  lemma PackedPair(s: string)
    requires |s| >= 2 && !IsBlank(s[0]) && !IsBlank(s[1])
    ensures Packed(s) == [s[0], s[1]] + Packed(s[2..])
  {
  }

  /** What decoding reads first, if it is no blank: a pair of digits. */
  lemma DecodePair(s: string)
    requires s != "" && !IsBlank(s[0]) && Decode(s).Ok?
    ensures |s| >= 2 && HexValue(s[0]).Some? && HexValue(s[1]).Some? && Decode(s[2..]).Ok?
    ensures Decode(s).value == [HexValue(s[0]).value * 16 + HexValue(s[1]).value] + Decode(s[2..]).value
    ensures Packed(s) == [s[0], s[1]] + Packed(s[2..])
  {
    PackedPair(s);
  }

  lemma {:induction false} DecodeEncode(b: Bytes)
    ensures Decode(Encode(b)) == Ok(b)
  {
    if b != [] {
      DigitValue(b[0] / 16);
      DigitValue(b[0] % 16);
      assert Encode(b)[2..] == Encode(b[1..]);
      DecodeEncode(b[1..]);
      assert [b[0]] + b[1..] == b;
    }
  }

  /** Bytes read are printed as the digits read, in lower case. */
  lemma {:induction false} EncodeDecode(s: string)
    requires Decode(s).Ok?
    ensures Encode(Decode(s).value) == Lower(Packed(s))
    decreases |s|
  {
    if s != "" && IsBlank(s[0]) {
      EncodeDecode(s[1..]);
    } else if s != "" {
      DecodePair(s);
      EncodeDecode(s[2..]);
      LowerPair(s[0], s[1], Packed(s[2..]));
      EncodeCons(HexValue(s[0]).value, HexValue(s[1]).value, Decode(s[2..]).value);
      ValueDigit(s[0]);
      ValueDigit(s[1]);
    }
  }

  lemma EncodeCons(hi: nat, lo: nat, rest: Bytes)
    requires hi < 16 && lo < 16
    ensures Encode([hi * 16 + lo] + rest) == [HexDigit(hi), HexDigit(lo)] + Encode(rest)
  {
    Nibbles(hi, lo);
    assert ([hi * 16 + lo] + rest)[1..] == rest;
  }

  lemma LowerPair(x: char, y: char, rest: string)
    ensures Lower([x, y] + rest) == [LowerDigit(x), LowerDigit(y)] + Lower(rest)
  {
    assert ([x, y] + rest)[1..] == [y] + rest;
    assert ([y] + rest)[1..] == rest;
  }

  /** Every two digits make a byte. */
  lemma {:induction false} DecodedLength(s: string)
    requires Decode(s).Ok?
    ensures 2 * |Decode(s).value| == |Packed(s)|
    decreases |s|
  {
    if s != "" && IsBlank(s[0]) {
      DecodedLength(s[1..]);
    } else if s != "" {
      DecodePair(s);
      DecodedLength(s[2..]);
    }
  }

  /** A blank, or a pair of digits. */
  predicate IsUnit(s: string) {
    || (|s| == 1 && IsBlank(s[0]))
    || (|s| == 2 && HexValue(s[0]).Some? && HexValue(s[1]).Some?)
  }

  ghost predicate IsUnits(parts: seq<string>) {
    forall i :: 0 <= i < |parts| ==> IsUnit(parts[i])
  }

  /** Exactly the texts that are made of blanks and pairs of digits are read. */
  lemma DecodesExactly(s: string)
    ensures Decode(s).Ok? <==> exists parts :: IsUnits(parts) && Concat(parts) == s
  {
    if Decode(s).Ok? {
      var parts := Units(s);
    }
    if parts :| IsUnits(parts) && Concat(parts) == s {
      UnitsDecode(parts);
    }
  }

  ghost function Units(s: string): (parts: seq<string>)
    requires Decode(s).Ok?
    ensures IsUnits(parts) && Concat(parts) == s
    decreases |s|
  {
    if s == "" then []
    else if IsBlank(s[0]) then [s[..1]] + Units(s[1..])
    else [s[..2]] + Units(s[2..])
  }

  lemma {:induction false} UnitsDecode(parts: seq<string>)
    requires IsUnits(parts)
    ensures Decode(Concat(parts)).Ok?
  {
    if parts != [] {
      UnitsDecode(parts[1..]);
      assert Concat(parts)[|parts[0]|..] == Concat(parts[1..]);
    }
  }

  /** The column of the table, by id, in either of its types. */
  datatype Column = TextColumn(texts: map<string, Option<string>>) | ByteColumn(bytes: map<string, Option<Bytes>>)

  function UpCell(eth: Option<string>): Result<Option<Bytes>> {
    if eth.None? then Ok(None) else
      var b := Decode(FromThird(eth.value));
      if b.Err? then Err else Ok(Some(b.value))
  }

  function DownCell(eth: Option<Bytes>): Option<string> {
    if eth.None? then None else Some("0x" + Encode(eth.value))
  }

  predicate CanUp(t: map<string, Option<string>>) {
    forall id :: id in t ==> UpCell(t[id]).Ok?
  }

  function UpTable(t: map<string, Option<string>>): map<string, Option<Bytes>>
    requires CanUp(t)
  {
    map id | id in t :: UpCell(t[id]).value
  }

  function DownTable(t: map<string, Option<Bytes>>): map<string, Option<string>> {
    map id | id in t :: DownCell(t[id])
  }

  class Migration {
    var column: Column

    constructor (column: Column)
      ensures this.column == column
    {
      this.column := column;
    }

    /** The rows are rewritten from a copy, in any order; the first text that is not hex rolls everything back. */
    method Up() returns (ok: bool)
      requires column.TextColumn?
      modifies this
      ensures ok <==> CanUp(old(column.texts))
      ensures column == if ok then ByteColumn(UpTable(old(column.texts))) else old(column)
    {
      var usersEth := column.texts;
      column := ByteColumn(map id | id in usersEth :: None);
      var left := usersEth.Keys;
      while left != {}
        invariant left <= usersEth.Keys && column.ByteColumn? && column.bytes.Keys == usersEth.Keys
        invariant forall id :: id in usersEth.Keys - left ==> UpCell(usersEth[id]) == Ok(column.bytes[id])
        invariant forall id :: id in left ==> column.bytes[id] == None
        decreases left
      {
        var id :| id in left;
        left := left - {id};
        var cell := UpCell(usersEth[id]);
        if cell.Err? {
          column := TextColumn(usersEth);
          return false;
        }
        column := ByteColumn(column.bytes[id := cell.value]);
      }
      ok := true;
      assert column.bytes == UpTable(usersEth);
    }

    method Down()
      requires column.ByteColumn?
      modifies this
      ensures column == TextColumn(DownTable(old(column.bytes)))
    {
      var usersEth := column.bytes;
      column := TextColumn(map id | id in usersEth :: None);
      var left := usersEth.Keys;
      while left != {}
        invariant left <= usersEth.Keys && column.TextColumn? && column.texts.Keys == usersEth.Keys
        invariant forall id :: id in usersEth.Keys - left ==> column.texts[id] == DownCell(usersEth[id])
        decreases left
      {
        var id :| id in left;
        left := left - {id};
        column := TextColumn(column.texts[id := DownCell(usersEth[id])]);
      }
      assert column.texts == DownTable(usersEth);
    }
  }

  /** Down and then Up is the identity on every table of bytes. */
  lemma UpAfterDown(t: map<string, Option<Bytes>>)
    ensures CanUp(DownTable(t)) && UpTable(DownTable(t)) == t
  {
    forall id | id in t
      ensures UpCell(DownCell(t[id])) == Ok(t[id])
    {
      if t[id].Some? {
        DecodeEncode(t[id].value);
        assert FromThird("0x" + Encode(t[id].value)) == Encode(t[id].value);
      }
    }
  }

  /** Up and then Down lower-cases the digits, drops the blanks between them and puts 0x before them. */
  lemma DownAfterUpCell(eth: Option<string>)
    requires UpCell(eth).Ok?
    ensures DownCell(UpCell(eth).value) == if eth.None? then None else Some("0x" + Lower(Packed(FromThird(eth.value))))
  {
    if eth.Some? {
      EncodeDecode(FromThird(eth.value));
    }
  }

  /** The text is 0x and then has no upper case and no blank. */
  predicate Canonical(s: string) {
    "0x" <= s && forall i :: 2 <= i < |s| ==> !('A' <= s[i] <= 'F') && !IsBlank(s[i])
  }

  lemma {:induction false} LowerFixes(s: string)
    ensures Lower(Packed(s)) == s <==> forall i :: 0 <= i < |s| ==> !('A' <= s[i] <= 'F') && !IsBlank(s[i])
  {
    if s != "" {
      LowerFixes(s[1..]);
      assert forall i :: 1 <= i < |s| ==> s[i] == s[1..][i - 1];
      if !IsBlank(s[0]) {
        assert Packed(s)[1..] == Packed(s[1..]);
        assert Lower(Packed(s))[1..] == Lower(Packed(s[1..]));
      }
    }
  }

  lemma SameTextExactly(s: string)
    ensures "0x" + Lower(Packed(FromThird(s))) == s <==> Canonical(s)
  {
    var rest := FromThird(s);
    LowerFixes(rest);
    assert forall i :: 2 <= i < |s| ==> s[i] == rest[i - 2];
    var back := "0x" + Lower(Packed(rest));
    assert back[..2] == "0x" && back[2..] == Lower(Packed(rest));
    if "0x" <= s {
      assert s == "0x" + rest;
    }
  }

  /** A table that Up accepts comes back from Down unchanged exactly if all its texts are canonical. */
  lemma DownAfterUp(t: map<string, Option<string>>)
    requires CanUp(t)
    ensures DownTable(UpTable(t)) == t <==> forall id :: id in t && t[id].Some? ==> Canonical(t[id].value)
  {
    forall id | id in t
      ensures DownTable(UpTable(t))[id] == t[id] <==> (t[id].Some? ==> Canonical(t[id].value))
    {
      DownAfterUpCell(t[id]);
      if t[id].Some? {
        SameTextExactly(t[id].value);
      }
    }
  }

  /** Of the texts Up accepts, exactly those with 40 digits after the first two characters pass the length check. */
  lemma TwentyBytes(row: Row, eth: string)
    requires UpCell(Some(eth)).Ok?
    requires row.account.ethereumAddress == UpCell(Some(eth)).value
    ensures CheckEmail.HasWallet(row) <==> |Packed(FromThird(eth))| == 40
  {
    DecodedLength(FromThird(eth));
  }

  lemma {:induction false} DigitsDecode(s: string)
    requires |s| % 2 == 0 && forall i :: 0 <= i < |s| ==> HexValue(s[i]).Some?
    ensures Decode(s).Ok? && Packed(s) == s
    decreases |s|
  {
    if s != "" {
      DigitsDecode(s[2..]);
      PackedPair(s);
    }
  }

  /** Every text of 0x and 40 digits, of either case, is accepted and becomes 20 bytes, so check-email keeps it. */
  lemma AddressesAreAccepted(eth: string, row: Row)
    requires "0x" <= eth && |eth| == 42 && forall i :: 2 <= i < 42 ==> HexValue(eth[i]).Some?
    ensures UpCell(Some(eth)).Ok? && |UpCell(Some(eth)).value.value| == 20
    ensures row.account.ethereumAddress == UpCell(Some(eth)).value ==> CheckEmail.HasWallet(row)
  {
    DigitsDecode(eth[2..]);
    DecodedLength(eth[2..]);
  }
}
