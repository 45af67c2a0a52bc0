/**
  What the challenge scanners accept, stated as a grammar with no scanning in it: quoted strings with any
  choice of escapes, optional white space, and parameters in any order.
*/
module ChallengeGrammar {
  import opened Common
  import opened Challenge
  import Sorting

  // ---------------------------------------------------------------------------------------------
  // Quoted strings
  // ---------------------------------------------------------------------------------------------

  /** `s` as the inside of a quoted string, escaping the characters `escape` marks. */
  function QuoteWith(s: string, escape: seq<bool>): string
    requires |escape| == |s|
  {
    if s == [] then [] else (if escape[0] then ['\\', s[0]] else [s[0]]) + QuoteWith(s[1..], escape[1..])
  }

  ghost predicate MayQuote(s: string, escape: seq<bool>) {
    && |escape| == |s|
    && forall i :: 0 <= i < |s| ==> if escape[i] then IsQuotedPair(s[i]) else s[i] != '"' && s[i] != '\\'
  }

  /** Whatever is escaped, the quoted form reads back to the string and the tail. */
  lemma {:induction false} QuotedRoundTrip(s: string, escape: seq<bool>, tail: string)
    requires MayQuote(s, escape)
    ensures Unquote(QuoteWith(s, escape) + "\"" + tail) == Some((s, tail))
  {
    var text := QuoteWith(s, escape) + "\"" + tail;
    if s == [] {
      assert text[1..] == tail;
    } else {
      QuotedRoundTrip(s[1..], escape[1..], tail);
      var inner := QuoteWith(s[1..], escape[1..]) + "\"" + tail;
      assert [s[0]] + s[1..] == s;
      if escape[0] {
        assert text == ['\\', s[0]] + inner;
      } else {
        assert text == [s[0]] + inner;
      }
    }
  }

  /** Whatever reads as a quoted string is one. */
  lemma {:induction false} UnquoteIsQuoted(v: string) returns (escape: seq<bool>)
    requires Unquote(v).Some?
    ensures MayQuote(Unquote(v).value.0, escape)
    ensures v == QuoteWith(Unquote(v).value.0, escape) + "\"" + Unquote(v).value.1
  {
    hide IsQuotedPair;
    var (s, tail) := Unquote(v).value;
    if v[0] == '"' {
      escape := [];
    } else if v[0] == '\\' {
      var rest := UnquoteIsQuoted(v[2..]);
      escape := [true] + rest;
      assert s == [v[1]] + Unquote(v[2..]).value.0;
      assert s[1..] == Unquote(v[2..]).value.0 && escape[1..] == rest;
      assert v == ['\\', s[0]] + v[2..];
    } else {
      var rest := UnquoteIsQuoted(v[1..]);
      escape := [false] + rest;
      assert s == [v[0]] + Unquote(v[1..]).value.0;
      assert s[1..] == Unquote(v[1..]).value.0 && escape[1..] == rest;
      assert v == [s[0]] + v[1..];
    }
  }

  // ---------------------------------------------------------------------------------------------
  // Values
  // ---------------------------------------------------------------------------------------------

  ghost predicate TokenForm(form: string, value: string, tail: string) {
    form == value && value != [] && AllToken(value) && (tail != [] ==> !IsToken(tail[0]))
  }

  ghost predicate QuotedForm(form: string, value: string) {
    exists escape :: MayQuote(value, escape) && form == "\"" + QuoteWith(value, escape) + "\""
  }

  /** `form` spells `value` when followed by `tail`. */
  ghost predicate Spelled(form: string, value: string, tail: string) {
    TokenForm(form, value, tail) || QuotedForm(form, value)
  }

  lemma NotTokens()
    ensures !IsToken('=') && !IsToken('"') && !IsToken(',')
    ensures !IsOws('=') && !IsOws('"') && !IsOws(',')
    ensures forall c :: IsOws(c) ==> !IsToken(c)
  {
  }

  lemma {:induction false} TokenLenOf(name: string, rest: string)
    requires AllToken(name) && (rest != [] ==> !IsToken(rest[0]))
    ensures TokenLen(name + rest) == |name|
  {
    hide IsToken;
    if name == [] {
      assert name + rest == rest;
    } else {
      TokenLenOf(name[1..], rest);
      assert (name + rest)[1..] == name[1..] + rest;
    }
  }

  lemma {:induction false} TokenLenIs(s: string)
    ensures AllToken(s[..TokenLen(s)])
    ensures TokenLen(s) < |s| ==> !IsToken(s[TokenLen(s)])
  {
    hide IsToken;
    if s != [] && IsToken(s[0]) {
      TokenLenIs(s[1..]);
      assert s[..TokenLen(s)] == [s[0]] + s[1..][..TokenLen(s[1..])];
    }
  }

  lemma ValueOfForm(form: string, value: string, tail: string)
    requires Spelled(form, value, tail)
    ensures Value(form + tail) == Some((value, tail))
  {
    if TokenForm(form, value, tail) {
      TokenLenOf(value, tail);
      assert (form + tail)[0] == value[0];
    } else {
      var escape :| MayQuote(value, escape) && form == "\"" + QuoteWith(value, escape) + "\"";
      QuotedRoundTrip(value, escape, tail);
      assert (form + tail)[1..] == QuoteWith(value, escape) + "\"" + tail;
    }
  }

  lemma FormOfValue(s: string) returns (form: string)
    requires Value(s).Some?
    ensures s == form + Value(s).value.1 && Spelled(form, Value(s).value.0, Value(s).value.1)
  {
    hide IsToken, QuoteWith, Unquote, TokenLen;
    var (value, tail) := Value(s).value;
    if s[0] == '"' {
      var escape := UnquoteIsQuoted(s[1..]);
      form := "\"" + QuoteWith(value, escape) + "\"";
      assert s == "\"" + s[1..];
    } else {
      TokenLenIs(s);
      form := value;
    }
  }

  // ---------------------------------------------------------------------------------------------
  // White space
  // ---------------------------------------------------------------------------------------------

  lemma {:induction false} DropOwsOf(lead: string, s: string)
    requires AllOws(lead) && (s != [] ==> !IsOws(s[0]))
    ensures DropOws(lead + s) == s
  {
    if lead == [] {
      assert lead + s == s;
    } else {
      DropOwsOf(lead[1..], s);
      assert (lead + s)[1..] == lead[1..] + s;
    }
  }

  lemma {:induction false} DropOwsIs(s: string) returns (lead: string)
    ensures AllOws(lead) && s == lead + DropOws(s)
    ensures DropOws(s) != [] ==> !IsOws(DropOws(s)[0])
  {
    hide IsOws;
    if s != [] && IsOws(s[0]) {
      var rest := DropOwsIs(s[1..]);
      lead := [s[0]] + rest;
      assert s == [s[0]] + (rest + DropOws(s[1..])) == lead + DropOws(s);
    } else {
      lead := [];
      assert s == lead + s;
    }
  }

  lemma TrimTrimmed(s: string)
    requires EndTrimmed(s)
    ensures TrimOws(s) == DropOws(s) && EndTrimmed(DropOws(s))
  {
    var lead := DropOwsIs(s);
    if DropOws(s) != [] {
      assert DropOws(s)[|DropOws(s)| - 1] == s[|s| - 1];
    }
  }

  lemma {:induction false} DropEndTrims(s: string)
    ensures EndTrimmed(DropEndOws(s))
  {
    if s != [] && IsOws(s[|s| - 1]) { DropEndTrims(s[..|s| - 1]); }
  }

  lemma {:induction false} DropEndKeepsFirst(s: string)
    ensures DropEndOws(s) != [] ==> s != [] && DropEndOws(s)[0] == s[0]
  {
    if s != [] && IsOws(s[|s| - 1]) { DropEndKeepsFirst(s[..|s| - 1]); }
  }

  lemma TrimTwice(s: string)
    ensures EndTrimmed(TrimOws(s)) && TrimOws(TrimOws(s)) == TrimOws(s)
  {
    DropEndTrims(DropOws(s));
    var lead := DropOwsIs(s);
    DropEndKeepsFirst(DropOws(s));
    TrimTrimmed(TrimOws(s));
  }

  lemma ParamsOfTrimmed(s: string)
    ensures Params(TrimOws(s)) == Params(s)
  {
    TrimTwice(s);
    assert StartsParameter(TrimOws(s)) == StartsParameter(s);
    assert Parameter(TrimOws(s)) == Parameter(s);
  }

  // ---------------------------------------------------------------------------------------------
  // One parameter
  // ---------------------------------------------------------------------------------------------

  /** The white space around a name and its value, and the way the value is spelled. */
  datatype Layout = Layout(lead: string, mid: string, gap: string, form: string)

  function Head(lead: string, name: string, mid: string): string {
    lead + name + mid + "="
  }

  ghost predicate IsHead(lead: string, name: string, mid: string) {
    AllOws(lead) && AllOws(mid) && name != [] && AllToken(name)
  }

  ghost predicate LaysOut(l: Layout, p: Param, tail: string, s: string) {
    && IsHead(l.lead, p.name, l.mid) && AllOws(l.gap) && Spelled(l.form, p.value, tail)
    && s == Head(l.lead, p.name, l.mid) + (l.gap + (l.form + tail))
  }

  ghost predicate SpellsParam(s: string, p: Param, tail: string) {
    exists l :: LaysOut(l, p, tail, s)
  }

  /** `s` begins with a name and an equals sign. */
  ghost predicate Begins(s: string) {
    exists lead, name, mid, rest :: IsHead(lead, name, mid) && s == Head(lead, name, mid) + rest
  }

  /** What the scanners see after a name and an equals sign. */
  lemma AfterHead(lead: string, name: string, mid: string, rest: string)
    requires IsHead(lead, name, mid) && EndTrimmed(Head(lead, name, mid) + rest)
    ensures var s := Head(lead, name, mid) + rest;
      var v := TrimOws(s);
      && v == name + (mid + "=" + rest)
      && TokenLen(v) == |name|
      && TrimOws(v[|name|..]) == "=" + rest
  {
    hide IsToken, IsOws, DropOws, DropEndOws, TrimOws, TokenLen;
    NotTokens();
    var s := Head(lead, name, mid) + rest;
    var after := mid + "=" + rest;
    TrimTrimmed(s);
    assert s == lead + (name + after);
    DropOwsOf(lead, name + after);
    TokenLenOf(name, after);
    assert (name + after)[|name|..] == after;
    assert EndTrimmed(after) by {
      assert after[|after| - 1] == s[|s| - 1];
    }
    TrimTrimmed(after);
    assert after == mid + ("=" + rest);
    DropOwsOf(mid, "=" + rest);
  }

  lemma HeadOf(s: string) returns (lead: string, mid: string)
    requires EndTrimmed(s) && StartsParameter(s)
    ensures var v := TrimOws(s);
      && IsHead(lead, v[..TokenLen(v)], mid)
      && s == Head(lead, v[..TokenLen(v)], mid) + TrimOws(v[TokenLen(v)..])[1..]
  {
    hide IsToken, IsOws, DropOws, DropEndOws, TrimOws, TokenLen;
    TrimTrimmed(s);
    lead := DropOwsIs(s);
    var v := TrimOws(s);
    var n := TokenLen(v);
    TokenLenIs(v);
    assert EndTrimmed(v[n..]);
    TrimTrimmed(v[n..]);
    mid := DropOwsIs(v[n..]);
    var rest := TrimOws(v[n..]);
    assert rest == "=" + rest[1..];
    assert v == v[..n] + v[n..];
    assert s == lead + (v[..n] + (mid + ("=" + rest[1..])));
  }

  lemma StartsIff(s: string)
    requires EndTrimmed(s)
    ensures StartsParameter(s) <==> Begins(s)
  {
    if StartsParameter(s) {
      var lead, mid := HeadOf(s);
      var v := TrimOws(s);
      assert s == Head(lead, v[..TokenLen(v)], mid) + TrimOws(v[TokenLen(v)..])[1..];
    }
    if Begins(s) {
      var lead, name, mid, rest :| IsHead(lead, name, mid) && s == Head(lead, name, mid) + rest;
      AfterHead(lead, name, mid, rest);
    }
  }

  lemma ParameterOfSpelling(s: string, p: Param, tail: string)
    requires EndTrimmed(s) && SpellsParam(s, p, tail)
    ensures StartsParameter(s) && Parameter(s) == Some((p, tail)) && EndTrimmed(tail)
  {
    hide IsToken, IsOws, DropOws, DropEndOws, TrimOws, TokenLen, Value;
    NotTokens();
    var l :| LaysOut(l, p, tail, s);
    var rest := l.gap + (l.form + tail);
    AfterHead(l.lead, p.name, l.mid, rest);
    assert l.form != [] && !IsOws(l.form[0]);
    assert rest[|rest| - 1] == s[|s| - 1];
    TrimTrimmed(rest);
    DropOwsOf(l.gap, l.form + tail);
    ValueOfForm(l.form, p.value, tail);
    assert ("=" + rest)[1..] == rest;
    assert (p.name + (l.mid + "=" + rest))[..|p.name|] == p.name;
    if tail != [] { assert tail[|tail| - 1] == s[|s| - 1]; }
  }

  lemma SpellingOfParameter(s: string)
    requires EndTrimmed(s) && StartsParameter(s) && Parameter(s).Some?
    ensures SpellsParam(s, Parameter(s).value.0, Parameter(s).value.1)
  {
    var (p, tail) := Parameter(s).value;
    var v := TrimOws(s);
    var rest := TrimOws(v[TokenLen(v)..])[1..];
    var lead, mid := HeadOf(s);
    assert EndTrimmed(rest) by {
      if rest != [] { assert rest[|rest| - 1] == s[|s| - 1]; }
    }
    TrimTrimmed(rest);
    var gap := DropOwsIs(rest);
    var form := FormOfValue(TrimOws(rest));
    assert LaysOut(Layout(lead, mid, gap, form), p, tail, s);
  }

  // ---------------------------------------------------------------------------------------------
  // The list
  // ---------------------------------------------------------------------------------------------

  /**
    `s` is the parameters `ps` separated by commas, ending at the end of the text, at a trailing comma,
    or before something that is not a parameter, such as the next challenge.
  */
  ghost predicate Spells(s: string, ps: seq<Param>)
    decreases |ps|, 0
  {
    if ps == [] then !Begins(s) else exists tail :: SpellsParam(s, ps[0], tail) && Goes(tail, ps[1..])
  }

  ghost predicate Goes(tail: string, ps: seq<Param>)
    decreases |ps|, 1
  {
    (ps == [] && tail == []) || exists w, rest :: After(tail, w, rest) && Spells(rest, ps)
  }

  ghost predicate After(tail: string, w: string, rest: string) {
    AllOws(w) && tail == w + ("," + rest)
  }

  lemma AfterComma(tail: string, w: string, rest: string)
    requires EndTrimmed(tail) && After(tail, w, rest)
    ensures TrimOws(tail) == "," + rest && EndTrimmed(rest)
  {
    TrimTrimmed(tail);
    DropOwsOf(w, "," + rest);
    if rest != [] { assert rest[|rest| - 1] == tail[|tail| - 1]; }
  }

  lemma CommaAfter(tail: string) returns (w: string)
    requires EndTrimmed(tail) && TrimOws(tail) != [] && TrimOws(tail)[0] == ','
    ensures After(tail, w, TrimOws(tail)[1..])
  {
    TrimTrimmed(tail);
    w := DropOwsIs(tail);
    assert TrimOws(tail) == "," + TrimOws(tail)[1..];
  }

  lemma NothingAfter(tail: string)
    requires EndTrimmed(tail) && TrimOws(tail) == []
    ensures tail == []
  {
    TrimTrimmed(tail);
    var w := DropOwsIs(tail);
    assert tail == w;
  }

  lemma {:induction false} ParamsOfSpelling(s: string, ps: seq<Param>)
    requires EndTrimmed(s) && Spells(s, ps)
    ensures Params(s) == Some(ps)
    decreases |ps|
  {
    hide SpellsParam, After, StartsParameter, Parameter, Begins, TrimOws;
    StartsIff(s);
    if ps != [] {
      var tail :| SpellsParam(s, ps[0], tail) && Goes(tail, ps[1..]);
      ParameterOfSpelling(s, ps[0], tail);
      TrimTrimmed(tail);
      if ps[1..] == [] && tail == [] {
        EmptyTrims();
        assert ps == [ps[0]];
      } else {
        var w, rest :| After(tail, w, rest) && Spells(rest, ps[1..]);
        AfterComma(tail, w, rest);
        ParamsOfSpelling(rest, ps[1..]);
        ParamsOfTrimmed(rest);
        assert ("," + rest)[1..] == rest;
        assert ps == [ps[0]] + ps[1..];
      }
    }
  }

  lemma EmptyTrims()
    ensures TrimOws([]) == []
  {
  }

  lemma {:induction false} SpellingOfParams(s: string)
    requires EndTrimmed(s) && Params(s).Some?
    ensures Spells(s, Params(s).value)
    decreases |s|
  {
    hide SpellsParam, After, StartsParameter, Parameter, Begins, TrimOws;
    StartsIff(s);
    if StartsParameter(s) {
      var ps := Params(s).value;
      var (p, tail) := Parameter(s).value;
      SpellingOfParameter(s);
      ParameterOfSpelling(s, p, tail);
      TrimShorter(tail);
      if TrimOws(tail) == [] {
        NothingAfter(tail);
        assert ps == [p] && ps[1..] == [];
        assert Goes(tail, []);
      } else {
        var w := CommaAfter(tail);
        var rest := TrimOws(tail)[1..];
        AfterComma(tail, w, rest);
        ParamsOfTrimmed(rest);
        SpellingOfParams(rest);
        assert ps[1..] == Params(rest).value;
        assert Goes(tail, ps[1..]);
      }
    }
  }

  /** The list the scanners read is the one list the text spells. */
  lemma ParamsIff(text: string, ps: seq<Param>)
    ensures Params(text) == Some(ps) <==> Spells(TrimOws(text), ps)
  {
    hide *;
    ParamsOfTrimmed(text);
    TrimTwice(text);
    if Params(text) == Some(ps) { SpellingOfParams(TrimOws(text)); }
    if Spells(TrimOws(text), ps) { ParamsOfSpelling(TrimOws(text), ps); }
  }

  // ---------------------------------------------------------------------------------------------
  // The challenge
  // ---------------------------------------------------------------------------------------------

  /** Some parameter of that name has that value, or no parameter has that name. */
  ghost predicate Carries(ps: seq<Param>, name: string, value: Option<string>) {
    match value
    case None => !Named(ps, name)
    case Some(v) => exists i :: 0 <= i < |ps| && SameName(ps[i].name, name) && ps[i].value == v
  }

  ghost predicate Challenges(ps: seq<Param>, b: Bearer) {
    && NamesDistinct(ps) && b.realm != []
    && Carries(ps, "realm", Some(b.realm)) && Carries(ps, "service", b.service) && Carries(ps, "scope", b.scope)
  }

  lemma {:induction false} FindCarries(ps: seq<Param>, name: string)
    ensures Carries(ps, name, Find(ps, name))
  {
    FindIff(ps, name);
    if ps != [] && !SameName(ps[|ps| - 1].name, name) {
      FindCarries(ps[..|ps| - 1], name);
      if Find(ps, name).Some? {
        var i :| 0 <= i < |ps| - 1 && SameName(ps[i].name, name) && ps[i].value == Find(ps, name).value;
      }
    }
  }

  lemma CarriesOne(ps: seq<Param>, name: string, a: Option<string>, b: Option<string>)
    requires NamesDistinct(ps) && Carries(ps, name, a) && Carries(ps, name, b)
    ensures a == b
  {
    if a.Some? && b.Some? {
      var i :| 0 <= i < |ps| && SameName(ps[i].name, name) && ps[i].value == a.value;
      var j :| 0 <= j < |ps| && SameName(ps[j].name, name) && ps[j].value == b.value;
      assert SameName(ps[i].name, ps[j].name) && SameName(ps[j].name, ps[i].name);
    }
  }

  lemma AssembleIff(ps: seq<Param>, b: Bearer)
    ensures Assemble(ps) == Some(b) <==> Challenges(ps, b)
  {
    hide Carries, Find, NamesDistinct;
    FindCarries(ps, "realm");
    FindCarries(ps, "service");
    FindCarries(ps, "scope");
    if Challenges(ps, b) {
      CarriesOne(ps, "realm", Find(ps, "realm"), Some(b.realm));
      CarriesOne(ps, "service", Find(ps, "service"), b.service);
      CarriesOne(ps, "scope", Find(ps, "scope"), b.scope);
    }
  }

  /**
    A text parses to a challenge exactly when it spells parameters with distinct names, in any order, that
    carry a nonempty realm and that service and scope.
  */
  lemma ParsedIff(text: string, b: Bearer)
    ensures Parsed(text) == Some(b) <==> exists ps :: Spells(TrimOws(text), ps) && Challenges(ps, b)
  {
    hide Spells, Challenges, Params, Assemble, TrimOws;
    if Parsed(text) == Some(b) {
      ParamsIff(text, Params(text).value);
      AssembleIff(Params(text).value, b);
    }
    if ps :| Spells(TrimOws(text), ps) && Challenges(ps, b) {
      ParamsIff(text, ps);
      AssembleIff(ps, b);
    }
  }

  /** Any duplicate name, whatever its case or place, rejects the challenge. */
  lemma DuplicateRejected(text: string, ps: seq<Param>, i: nat, j: nat)
    requires Spells(TrimOws(text), ps) && i < j < |ps| && SameName(ps[i].name, ps[j].name)
    ensures Parsed(text) == None
  {
    hide Spells, Params, TrimOws;
    ParamsIff(text, ps);
  }

  /** No parameter occurs twice, and no two parameters share a name. */
  lemma NamesDistinctIff(ps: seq<Param>)
    ensures NamesDistinct(ps) <==>
      Distinct(ps) && forall p, q :: p in ps && q in ps && p != q ==> !SameName(p.name, q.name)
  {
    hide SameName;
    assert forall a, b :: SameName(a, b) <==> SameName(b, a) by { SameNameSymmetric(); }
    assert forall a :: SameName(a, a) by { SameNameSymmetric(); }
    if NamesDistinct(ps) {
      forall p, q | p in ps && q in ps && p != q ensures !SameName(p.name, q.name) {
        var i, j :| 0 <= i < |ps| && ps[i] == p && 0 <= j < |ps| && ps[j] == q;
      }
    }
  }

  lemma SameNameSymmetric()
    ensures forall a, b :: SameName(a, b) <==> SameName(b, a)
    ensures forall a :: SameName(a, a)
  {
  }

  lemma DistinctAnyOrder(ps: seq<Param>, qs: seq<Param>)
    requires multiset(ps) == multiset(qs) && NamesDistinct(ps)
    ensures NamesDistinct(qs)
  {
    hide NamesDistinct, Distinct, SameName;
    NamesDistinctIff(ps);
    NamesDistinctIff(qs);
    Sorting.DistinctIff(ps);
    Sorting.DistinctIff(qs);
    forall p ensures p in ps <==> p in qs {
      assert p in ps <==> p in multiset(ps);
      assert p in qs <==> p in multiset(qs);
    }
  }

  lemma CarriesAnyOrder(ps: seq<Param>, qs: seq<Param>, name: string, value: Option<string>)
    requires multiset(ps) == multiset(qs) && Carries(ps, name, value)
    ensures Carries(qs, name, value)
  {
    match value
    case Some(v) =>
      var i :| 0 <= i < |ps| && SameName(ps[i].name, name) && ps[i].value == v;
      assert ps[i] in multiset(qs);
    case None =>
      forall i | 0 <= i < |qs| ensures !SameName(qs[i].name, name) {
        assert qs[i] in multiset(qs);
        assert qs[i] in ps;
      }
  }

  lemma ChallengesAnyOrder(ps: seq<Param>, qs: seq<Param>, b: Bearer)
    requires multiset(ps) == multiset(qs) && Challenges(ps, b)
    ensures Challenges(qs, b)
  {
    hide Carries, NamesDistinct;
    DistinctAnyOrder(ps, qs);
    CarriesAnyOrder(ps, qs, "realm", Some(b.realm));
    CarriesAnyOrder(ps, qs, "service", b.service);
    CarriesAnyOrder(ps, qs, "scope", b.scope);
  }

  lemma AssembleAnyOrder(ps: seq<Param>, qs: seq<Param>)
    requires multiset(ps) == multiset(qs) && Assemble(ps).Some?
    ensures Assemble(qs) == Assemble(ps)
  {
    hide Assemble, Challenges;
    var b := Assemble(ps).value;
    AssembleIff(ps, b);
    ChallengesAnyOrder(ps, qs, b);
    AssembleIff(qs, b);
  }

  /** Two texts that spell the same parameters in any two orders, with any layout, parse alike. */
  lemma AnyOrder(text: string, other: string, ps: seq<Param>, qs: seq<Param>)
    requires Spells(TrimOws(text), ps) && Spells(TrimOws(other), qs) && multiset(ps) == multiset(qs)
    ensures Parsed(text) == Parsed(other)
  {
    hide Spells, Params, TrimOws, Assemble;
    ParamsIff(text, ps);
    ParamsIff(other, qs);
    if Assemble(ps).Some? { AssembleAnyOrder(ps, qs); }
    if Assemble(qs).Some? { AssembleAnyOrder(qs, ps); }
  }

  // ---------------------------------------------------------------------------------------------
  // The characters themselves
  // ---------------------------------------------------------------------------------------------

  /**
    A token character is any visible one but a delimiter, as section 5.6.2 of RFC 9110 says; white space is a space
    or a tab; and a backslash may quote either of these or any visible character.
  */
  lemma CharactersAre(c: char)
    ensures IsToken(c) <==> '!' <= c <= '~' && c !in "\"(),/:;<=>?@[\\]{}"
    ensures IsOws(c) <==> c == ' ' || c == '\t'
    ensures IsQuotedPair(c) <==> c == ' ' || c == '\t' || '!' <= c <= '~'
  {
  }

  /** `x` and `y` are the same letter, or the same character, but for its case. */
  predicate SameLetter(x: char, y: char) {
    x == y || ('A' <= x <= 'Z' && y as int == x as int + 32) || ('A' <= y <= 'Z' && x as int == y as int + 32)
  }

  /** Names are compared letter by letter, in either case. */
  lemma SameNameIff(a: string, b: string)
    ensures SameName(a, b) <==> |a| == |b| && forall i :: 0 <= i < |a| ==> SameLetter(a[i], b[i])
  {
    var x, y := Lower(a), Lower(b);
    if x == y {
      assert |a| == |x| == |y| == |b|;
      forall i | 0 <= i < |a| ensures SameLetter(a[i], b[i]) {
        assert x[i] == y[i] && x[i] == LowerChar(a[i]) && y[i] == LowerChar(b[i]);
      }
    }
    if |a| == |b| && forall i :: 0 <= i < |a| ==> SameLetter(a[i], b[i]) {
      forall i | 0 <= i < |a| ensures x[i] == y[i] {
        assert SameLetter(a[i], b[i]);
      }
      assert x == y;
    }
  }
}
