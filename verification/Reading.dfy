/**
 Reading a statement back: its quoted identifiers and its numbered placeholders, in the order in which they stand. This
 says what the built texts mean without saying how they are built.
 */
module Reading {
  import opened Text

  datatype Token = Ident(name: string) | Param(number: int)

  function Tokens(s: string): seq<Token>
    decreases |s|
  {
    if s == "" then []
    else if s[0] == '"' then Quotation(s[1..], "")
    else if s[0] == '$' then [Param(NumberAt(s[1..]))] + Tokens(s[1..])
    else Tokens(s[1..])
  }

  /** The tokens behind an opening quote, of whose name the given part was read. */
  function Quotation(s: string, name: string): seq<Token>
    decreases |s|
  {
    if s == "" then []
    else if s[0] == '"' then [Ident(name)] + Tokens(s[1..])
    else Quotation(s[1..], name + [s[0]])
  }

  /** The number whose numeral starts s. */
  function NumberAt(s: string): int {
    NumeralValue(s[..NumeralLength(s)])
  }

  /** The text does not go on with a numeral that stands before it. */
  predicate Free(s: string) {
    s == "" || !IsNumeral(s[0])
  }

  /** Wherever the text stands, unless in the middle of a numeral, it reads as the given tokens. */
  ghost predicate Reads(s: string, tokens: seq<Token>) {
    forall x: string :: Free(x) ==> Tokens(s + x) == tokens + Tokens(x)
  }

  predicate IsPlain(s: string) {
    forall i :: 0 <= i < |s| ==> s[i] != '"' && s[i] != '$'
  }

  lemma {:induction false} PlainTokens(s: string, x: string)
    requires IsPlain(s)
    ensures Tokens(s + x) == Tokens(x)
  {
    if s == "" {
      assert s + x == x;
    } else {
      assert (s + x)[1..] == s[1..] + x;
      PlainTokens(s[1..], x);
    }
  }

  lemma {:induction false} QuotationEnds(rest: string, x: string, name: string)
    requires '"' !in rest
    ensures Quotation(rest + ("\"" + x), name) == [Ident(name + rest)] + Tokens(x)
    decreases |rest|
  {
    var s := rest + ("\"" + x);
    if rest == "" {
      assert s[1..] == x && name + rest == name;
    } else {
      assert s[1..] == rest[1..] + ("\"" + x);
      QuotationEnds(rest[1..], x, name + [rest[0]]);
      assert name + [rest[0]] + rest[1..] == name + rest;
    }
  }

  /** A quoted name reads as that identifier. */
  lemma QuotedTokens(name: string, x: string)
    requires '"' !in name
    ensures Tokens("\"" + name + "\"" + x) == [Ident(name)] + Tokens(x)
  {
    QuotationEnds(name, x, "");
    assert ("\"" + name + "\"" + x)[1..] == name + ("\"" + x);
    assert "" + name == name;
  }

  /** A numbered placeholder reads as the parameter of that number. */
  lemma ParamTokens(n: int, x: string)
    requires Free(x)
    ensures Tokens("$" + Itoa(n) + x) == [Param(n)] + Tokens(x)
  {
    var s := Itoa(n) + x;
    assert ("$" + Itoa(n) + x)[1..] == s;
    NumeralLengthOf(Itoa(n), x);
    assert s[..NumeralLength(s)] == Itoa(n);
    ItoaDenotes(n);
    NumeralIsPlain(Itoa(n));
    PlainTokens(Itoa(n), x);
  }

  lemma NumeralIsPlain(s: string)
    requires forall i :: 0 <= i < |s| ==> IsNumeral(s[i])
    ensures IsPlain(s)
  {
  }

  function Flat(tokens: seq<seq<Token>>): seq<Token> {
    if tokens == [] then [] else tokens[0] + Flat(tokens[1..])
  }

  lemma JoinCons(parts: seq<string>, sep: string, x: string)
    requires |parts| > 1
    ensures Join(parts, sep) + x == parts[0] + (sep + (Join(parts[1..], sep) + x))
  {
  }

  lemma FlatCons(tokens: seq<seq<Token>>, x: seq<Token>)
    requires tokens != []
    ensures tokens[0] + (Flat(tokens[1..]) + x) == Flat(tokens) + x
  {
  }

  lemma FlatOne(tokens: seq<seq<Token>>)
    requires |tokens| == 1
    ensures Flat(tokens) == tokens[0]
  {
    assert tokens[1..] == [];
    assert tokens[0] + [] == tokens[0];
  }

  lemma ReadsThen(s: string, tokens: seq<Token>, x: string)
    requires Reads(s, tokens) && Free(x)
    ensures Tokens(s + x) == tokens + Tokens(x)
  {
  }

  /** A list reads as its items, one after the other. */
  lemma {:induction false} JoinTokens(parts: seq<string>, tokens: seq<seq<Token>>, sep: string, x: string)
    requires |tokens| == |parts| && IsPlain(sep) && sep != "" && Free(sep) && Free(x)
    requires forall i :: 0 <= i < |parts| ==> Reads(parts[i], tokens[i])
    ensures Tokens(Join(parts, sep) + x) == Flat(tokens) + Tokens(x)
    decreases |parts|
  {
    if parts == [] {
      assert "" + x == x;
    } else if |parts| == 1 {
      FlatOne(tokens);
      ReadsThen(parts[0], tokens[0], x);
    } else {
      var rest := Join(parts[1..], sep) + x;
      JoinTokens(parts[1..], tokens[1..], sep, x);
      PlainTokens(sep, rest);
      ReadsThen(parts[0], tokens[0], sep + rest);
      JoinCons(parts, sep, x);
      FlatCons(tokens, Tokens(x));
    }
  }
}
