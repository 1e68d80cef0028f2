/** The users table: its rows, its constraints, and what the statements of the service do to it. */
module Users {
  import opened Wrappers

  type byte = b: int | 0 <= b < 256
  type Bytes = seq<byte>
  type Time = int

  /** The columns that only a whole-row write touches. */
  datatype Account = Account(
    emailAddress: Option<string>,
    emailConfirmed: bool,
    emailConfirmationSentAt: Option<Time>,
    emailConfirmationKey: Option<string>,
    countryCode: Option<string>,
    ethereumAddress: Option<Bytes>,
    agreedTosAt: Option<Time>,
    authProviderId: string,
    ethereumChallenge: Option<string>,
    ethereumChallengeSent: Option<Time>,
    ethereumConfirmed: bool,
    inAppWallet: bool,
    referralCode: Option<string>,
    referredAt: Option<Time>)

  /** A row of the table; the zero time is 0. */
  datatype Row = Row(
    id: string,
    createdAt: Time,
    account: Account,
    referringUserId: Option<string>,
    migratedAt: Option<Time>)

  type Table = map<string, Row>

  /** Rows are stored under their primary key. */
  predicate Keyed(t: Table) {
    forall id :: id in t ==> t[id].id == id
  }

  /** users_referring_user_id_fkey: a referrer named by a row is itself a row. */
  predicate ForeignKey(t: Table) {
    forall id :: id in t ==> t[id].referringUserId.Some? ==> t[id].referringUserId.value in t
  }

  /** users_referral_code_key: no two rows share a referral code. */
  predicate UniqueCodes(t: Table) {
    forall x, y :: x in t && y in t && t[x].account.referralCode.Some? ==>
      t[x].account.referralCode == t[y].account.referralCode ==> x == y
  }

  predicate Sound(t: Table) {
    Keyed(t) && ForeignKey(t) && UniqueCodes(t)
  }

  /** A statement takes effect only if every constraint holds afterwards. */
  function Commit(t: Table): Result<Table> {
    if Sound(t) then Ok(t) else Err
  }

  /** DELETE by id, with the foreign key's ON DELETE SET NULL. */
  function DeleteRow(t: Table, id: string): Table {
    map k | k in t && k != id ::
      if t[k].referringUserId == Some(id) then t[k].(referringUserId := None) else t[k]
  }

  /** A delete takes one row away, and the referrer from those that named it; it changes nothing else. */
  lemma DeleteExactly(t: Table, id: string)
    ensures DeleteRow(t, id).Keys == t.Keys - {id}
    ensures forall k :: k in t && k != id && t[k].referringUserId != Some(id) ==> DeleteRow(t, id)[k] == t[k]
    ensures forall k :: k in t && k != id && t[k].referringUserId == Some(id) ==>
              && DeleteRow(t, id)[k].referringUserId == None
              && DeleteRow(t, id)[k].(referringUserId := t[k].referringUserId) == t[k]
  {
  }

  lemma DeleteTakesAway(t: Table, id: string)
    ensures id !in DeleteRow(t, id)
  {
  }

  /** A table with the same ids, whose rows only lost referrers, is as sound. */
  lemma FewerReferrersSound(t: Table, s: Table)
    requires Sound(t) && s.Keys == t.Keys
    requires forall k :: k in s ==> s[k] == t[k] || s[k] == t[k].(referringUserId := None)
    ensures Sound(s)
  {
    SameCodes(t, s);
  }

  lemma SameCodes(t: Table, s: Table)
    requires UniqueCodes(t) && s.Keys == t.Keys && forall k :: k in s ==> s[k].account == t[k].account
    ensures UniqueCodes(s)
  {
  }

  lemma ClearKeepsSound(t: Table, referrer: string)
    requires Sound(t)
    ensures Sound(ClearReferrer(t, referrer))
  {
    FewerReferrersSound(t, ClearReferrer(t, referrer));
  }

  /** No row of the table has the referral code. */
  predicate CodeIsFree(t: Table, code: Option<string>) {
    code.None? || forall id :: id in t ==> t[id].account.referralCode != code
  }

  /** A new row is accepted exactly if its referrer is a row or itself, and nobody has its referral code. */
  lemma InsertSoundExactly(t: Table, row: Row)
    requires Sound(t) && row.id !in t
    ensures Sound(t[row.id := row]) <==>
            && (row.referringUserId.Some? ==> row.referringUserId.value in t || row.referringUserId.value == row.id)
            && CodeIsFree(t, row.account.referralCode)
  {
    var s := t[row.id := row];
    assert s[row.id] == row && forall k :: k in t ==> s[k] == t[k];
    if Sound(s) && row.account.referralCode.Some? {
      forall id | id in t
        ensures t[id].account.referralCode != row.account.referralCode
      {
        assert s[id] == t[id] && id != row.id;
      }
    }
  }

  /** Setting a referrer is refused exactly if there is a row to set it for and the referrer is no row. */
  lemma SetReferrerSound(t: Table, id: string, referrer: Option<string>)
    requires Sound(t)
    ensures Sound(SetReferrer(t, id, referrer)) <==> id !in t || referrer.None? || referrer.value in t
  {
    var s := SetReferrer(t, id, referrer);
    SameCodes(t, s);
    assert Keyed(s);
    if id in t {
      assert s[id].referringUserId == referrer;
      assert forall k :: k in t && k != id ==> s[k] == t[k];
    }
  }

  /** No delete breaks a constraint. */
  lemma DeleteKeepsSound(t: Table, id: string)
    requires Sound(t)
    ensures Sound(DeleteRow(t, id))
  {
    var s := DeleteRow(t, id);
    assert forall k :: k in s ==> k in t && s[k] == t[k].(referringUserId := s[k].referringUserId);
    assert forall k :: k in s ==> s[k].referringUserId.None? || s[k].referringUserId == t[k].referringUserId;
  }

  /** UPDATE of every column but id and created_at, on the row with the given id if there is one. */
  function WriteBack(t: Table, row: Row): Result<Table> {
    if row.id !in t then Ok(t) else Commit(Written(t, row))
  }

  function Written(t: Table, row: Row): Table {
    if row.id in t then t[row.id := row.(createdAt := t[row.id].createdAt)] else t
  }

  /** UPDATE of referring_user_id alone, on the row with the given id if there is one. */
  function SetReferrer(t: Table, id: string, referrer: Option<string>): Table {
    if id in t then t[id := t[id].(referringUserId := referrer)] else t
  }

  /** UPDATE that takes a referrer away from every row naming it. */
  function ClearReferrer(t: Table, referrer: string): Table {
    map k | k in t :: if t[k].referringUserId == Some(referrer) then t[k].(referringUserId := None) else t[k]
  }
}
