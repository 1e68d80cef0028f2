/** The column names of the users table, and why a list of them can be read back from its concatenation. */
module ColumnNames {
  import opened Text

  datatype Column =
    | Id | EmailAddress | EmailConfirmed | EmailConfirmationSentAt | EmailConfirmationKey | CreatedAt
    | CountryCode | EthereumAddress | AgreedTosAt | AuthProviderId | EthereumChallenge | EthereumChallengeSent
    | EthereumConfirmed | InAppWallet | ReferralCode | ReferredAt | ReferringUserId | MigratedAt
  {
    function Name(): string {
      match this
      case Id => "id"
      case EmailAddress => "email_address"
      case EmailConfirmed => "email_confirmed"
      case EmailConfirmationSentAt => "email_confirmation_sent_at"
      case EmailConfirmationKey => "email_confirmation_key"
      case CreatedAt => "created_at"
      case CountryCode => "country_code"
      case EthereumAddress => "ethereum_address"
      case AgreedTosAt => "agreed_tos_at"
      case AuthProviderId => "auth_provider_id"
      case EthereumChallenge => "ethereum_challenge"
      case EthereumChallengeSent => "ethereum_challenge_sent"
      case EthereumConfirmed => "ethereum_confirmed"
      case InAppWallet => "in_app_wallet"
      case ReferralCode => "referral_code"
      case ReferredAt => "referred_at"
      case ReferringUserId => "referring_user_id"
      case MigratedAt => "migrated_at"
    }

    /** The characters of the name at positions 1, 6, 13 and 19; a dot stands for "past the end". */
    function Marks(): (char, char, char, char) {
      match this
      case Id => ('d', '.', '.', '.')
      case EmailAddress => ('m', 'a', '.', '.')
      case EmailConfirmed => ('m', 'c', 'e', '.')
      case EmailConfirmationSentAt => ('m', 'c', 'a', 's')
      case EmailConfirmationKey => ('m', 'c', 'a', 'k')
      case CreatedAt => ('r', 'd', '.', '.')
      case CountryCode => ('o', 'y', '.', '.')
      case EthereumAddress => ('t', 'u', 'e', '.')
      case AgreedTosAt => ('g', '_', '.', '.')
      case AuthProviderId => ('u', 'r', '_', '.')
      case EthereumChallenge => ('t', 'u', 'l', '.')
      case EthereumChallengeSent => ('t', 'u', 'l', 's')
      case EthereumConfirmed => ('t', 'u', 'i', '.')
      case InAppWallet => ('n', '_', '.', '.')
      case ReferralCode => ('e', 'a', '.', '.')
      case ReferredAt => ('e', 'e', '.', '.')
      case ReferringUserId => ('e', 'i', 'r', '.')
      case MigratedAt => ('i', 'e', '.', '.')
    }
  }

  /** userAllColumns, in the order of the table. */
  const AllColumns: seq<Column> := [
    Id, EmailAddress, EmailConfirmed, EmailConfirmationSentAt, EmailConfirmationKey, CreatedAt, CountryCode,
    EthereumAddress, AgreedTosAt, AuthProviderId, EthereumChallenge, EthereumChallengeSent, EthereumConfirmed,
    InAppWallet, ReferralCode, ReferredAt, ReferringUserId, MigratedAt]

  function Names(columns: seq<Column>): seq<string> {
    seq(|columns|, i requires 0 <= i < |columns| => columns[i].Name())
  }

  ghost predicate IsColumn(name: string) {
    exists c: Column :: c.Name() == name
  }

  ghost predicate RealColumns(names: seq<string>) {
    forall i :: 0 <= i < |names| ==> IsColumn(names[i])
  }

  function Mark(s: string, p: nat): char {
    if p < |s| then s[p] else '.'
  }

  predicate HasMarks(s: string, m: (char, char, char, char)) {
    m == (Mark(s, 1), Mark(s, 6), Mark(s, 13), Mark(s, 19))
  }

  lemma NameHasMarks(c: Column)
    ensures HasMarks(c.Name(), c.Marks())
  {
    match c
    case Id =>
    case EmailAddress =>
    case EmailConfirmed =>
    case EmailConfirmationSentAt =>
    case EmailConfirmationKey =>
    case CreatedAt =>
    case CountryCode =>
    case EthereumAddress =>
    case AgreedTosAt =>
    case AuthProviderId =>
    case EthereumChallenge =>
    case EthereumChallengeSent =>
    case EthereumConfirmed =>
    case InAppWallet =>
    case ReferralCode =>
    case ReferredAt =>
    case ReferringUserId =>
    case MigratedAt =>
  }

  /** Every name starts with a letter, so with neither a dot, a digit, a sign nor an underscore. */
  lemma NameStart(s: string)
    requires IsColumn(s)
    ensures s != "" && 'a' <= s[0] <= 'z'
  {
  }

  lemma MarksDecide(s: string, c: Column, t: string, d: Column)
    requires HasMarks(s, c.Marks()) && HasMarks(t, d.Marks())
    requires s <= t
    ensures c == d || (c.EthereumChallenge? && d.EthereumChallengeSent?)
  {
    assert forall p: nat :: Mark(s, p) == '.' || Mark(s, p) == Mark(t, p);
  }

  /** One name is a proper prefix of another in one case only. */
  lemma OnlyPrefixPair(s: string, t: string)
    requires IsColumn(s) && IsColumn(t)
    requires s <= t
    ensures s == t || (s == EthereumChallenge.Name() && t == EthereumChallengeSent.Name())
  {
    var c: Column :| c.Name() == s;
    var d: Column :| d.Name() == t;
    NameHasMarks(c);
    NameHasMarks(d);
    MarksDecide(s, c, t, d);
  }

  /** What may follow a list of names in a cache key: nothing, or a section that starts with a dot. */
  predicate Terminator(x: string) {
    x == "" || x[0] == '.'
  }

  lemma ConcatStart(names: seq<string>, x: string)
    requires RealColumns(names) && Terminator(x)
    ensures names == [] ==> Concat(names) + x == x
    ensures names != [] ==> Concat(names) + x != "" && 'a' <= (Concat(names) + x)[0] <= 'z'
  {
    if names != [] {
      NameStart(names[0]);
    }
  }

  lemma AfterTheShorter(s: string, x: string, t: string, y: string)
    requires s == EthereumChallenge.Name() && t == EthereumChallengeSent.Name()
    requires s + x == t + y
    ensures x != "" && x[0] == '_'
  {
    assert (s + x)[18] == (t + y)[18] == t[18];
  }

  /** When two names start the same text, they are the same name, for what follows them cannot start with '_'. */
  lemma FirstNameDecodes(s: string, x: string, t: string, y: string)
    requires IsColumn(s) && IsColumn(t)
    requires s + x == t + y
    requires |s| <= |t|
    requires x != "" ==> x[0] != '_'
    ensures s == t && x == y
  {
    assert s == (s + x)[..|s|] == (t + y)[..|s|] == t[..|s|];
    OnlyPrefixPair(s, t);
    if s != t {
      AfterTheShorter(s, x, t, y);
    } else {
      SplitEqual(s, x, t, y);
    }
  }

  lemma HeadsDecode(s: string, x: string, t: string, y: string)
    requires IsColumn(s) && IsColumn(t)
    requires s + x == t + y
    requires x != "" ==> x[0] != '_'
    requires y != "" ==> y[0] != '_'
    ensures s == t && x == y
  {
    if |s| <= |t| {
      FirstNameDecodes(s, x, t, y);
    } else {
      FirstNameDecodes(t, y, s, x);
    }
  }

  lemma ConcatCons(names: seq<string>, x: string)
    requires names != []
    ensures Concat(names) + x == names[0] + (Concat(names[1..]) + x)
  {
  }

  /** The eighteen names form a uniquely decodable code. */
  lemma {:induction false} ConcatDecodes(cs: seq<string>, x: string, ds: seq<string>, y: string)
    requires RealColumns(cs) && RealColumns(ds)
    requires Terminator(x) && Terminator(y)
    requires Concat(cs) + x == Concat(ds) + y
    ensures cs == ds && x == y
    decreases |cs|
  {
    ConcatStart(cs, x);
    ConcatStart(ds, y);
    if cs != [] {
      ConcatCons(cs, x);
      ConcatCons(ds, y);
      ConcatStart(cs[1..], x);
      ConcatStart(ds[1..], y);
      HeadsDecode(cs[0], Concat(cs[1..]) + x, ds[0], Concat(ds[1..]) + y);
      ConcatDecodes(cs[1..], x, ds[1..], y);
    }
  }
}
