/**
  The parameters of a `WWW-Authenticate: Bearer` challenge (sections 5.6.4 and 11.2 of RFC 9110): the
  hand-written scanners, and the grammar they accept.
*/
module Challenge {
  import opened Common

  // ---------------------------------------------------------------------------------------------
  // Characters and white space
  // ---------------------------------------------------------------------------------------------

  predicate IsOws(c: char) {
    c == ' ' || c == '\t'
  }

  predicate IsToken(c: char) {
    || 'a' <= c <= 'z' || 'A' <= c <= 'Z' || '0' <= c <= '9'
    || c in "!#$%&'*+-.^_`|~"
  }

  predicate IsQuotedPair(c: char) {
    c == '\t' || c == ' ' || '!' <= c <= '~'
  }

  ghost predicate AllOws(s: string) {
    forall i :: 0 <= i < |s| ==> IsOws(s[i])
  }

  ghost predicate AllToken(s: string) {
    forall i :: 0 <= i < |s| ==> IsToken(s[i])
  }

  function DropOws(s: string): string {
    if s != [] && IsOws(s[0]) then DropOws(s[1..]) else s
  }

  function DropEndOws(s: string): string {
    if s != [] && IsOws(s[|s| - 1]) then DropEndOws(s[..|s| - 1]) else s
  }

  function TrimOws(s: string): string {
    DropEndOws(DropOws(s))
  }

  predicate EndTrimmed(s: string) {
    s != [] ==> !IsOws(s[|s| - 1])
  }

  /** The length of the token `s` begins with. */
  function TokenLen(s: string): (n: nat)
    ensures n <= |s|
  {
    if s != [] && IsToken(s[0]) then 1 + TokenLen(s[1..]) else 0
  }

  // ---------------------------------------------------------------------------------------------
  // The scanners as functions
  // ---------------------------------------------------------------------------------------------

  /** Read a quoted string after its opening quote: the text it stands for, and what follows it. */
  function Unquote(s: string): (r: Option<(string, string)>)
    ensures r.Some? ==> |r.value.1| < |s|
  {
    if s == [] then None
    else if s[0] == '"' then Some(([], s[1..]))
    else if s[0] == '\\' then
      if |s| > 1 && IsQuotedPair(s[1]) then Prepend([s[1]], Unquote(s[2..])) else None
    else Prepend([s[0]], Unquote(s[1..]))
  }

  function Prepend(front: string, rest: Option<(string, string)>): Option<(string, string)> {
    if rest.Some? then Some((front + rest.value.0, rest.value.1)) else None
  }

  function Value(s: string): (r: Option<(string, string)>)
    ensures r.Some? ==> |r.value.1| < |s|
  {
    if s != [] && s[0] == '"' then Unquote(s[1..])
    else if TokenLen(s) > 0 then Some((s[..TokenLen(s)], s[TokenLen(s)..]))
    else None
  }

  predicate StartsParameter(s: string) {
    var v := TrimOws(s);
    var rest := TrimOws(v[TokenLen(v)..]);
    TokenLen(v) > 0 && rest != [] && rest[0] == '='
  }

  datatype Param = Param(name: string, value: string)

  function Parameter(s: string): (r: Option<(Param, string)>)
    ensures r.Some? ==> |r.value.1| < |s|
  {
    TrimShorter(s);
    var v := TrimOws(s);
    TrimShorter(v[TokenLen(v)..]);
    var rest := TrimOws(v[TokenLen(v)..]);
    if rest == [] || rest[0] != '=' then None else
      TrimShorter(rest[1..]);
      var read := Value(TrimOws(rest[1..]));
      if read.None? then None else Some((Param(v[..TokenLen(v)], read.value.0), read.value.1))
  }

  lemma {:induction false} DropShorter(s: string)
    ensures |DropOws(s)| <= |s|
  {
    if s != [] && IsOws(s[0]) { DropShorter(s[1..]); }
  }

  lemma {:induction false} DropEndShorter(s: string)
    ensures |DropEndOws(s)| <= |s|
  {
    if s != [] && IsOws(s[|s| - 1]) { DropEndShorter(s[..|s| - 1]); }
  }

  lemma TrimShorter(s: string)
    ensures |TrimOws(s)| <= |s|
  {
    DropShorter(s);
    DropEndShorter(DropOws(s));
  }

  /** Every parameter of a list in order, or nothing when the list is malformed. */
  function Params(s: string): Option<seq<Param>>
    decreases |s|
  {
    if !StartsParameter(s) then Some([]) else
      var read := Parameter(s);
      if read.None? then None else
        var rest := (TrimShorter(read.value.1); TrimOws(read.value.1));
        if rest == [] then Some([read.value.0])
        else if rest[0] != ',' then None
        else
          var more := (TrimShorter(rest[1..]); Params(TrimOws(rest[1..])));
          if more.None? then None else Some([read.value.0] + more.value)
  }

  // ---------------------------------------------------------------------------------------------
  // Names
  // ---------------------------------------------------------------------------------------------

  function LowerChar(c: char): char {
    if 'A' <= c <= 'Z' then c + 32 as char else c
  }

  function Lower(s: string): string {
    seq(|s|, i requires 0 <= i < |s| => LowerChar(s[i]))
  }

  predicate SameName(a: string, b: string) {
    Lower(a) == Lower(b)
  }

  predicate Named(params: seq<Param>, name: string) {
    exists i :: 0 <= i < |params| && SameName(params[i].name, name)
  }

  ghost predicate NamesDistinct(params: seq<Param>) {
    forall i, j :: 0 <= i < j < |params| ==> !SameName(params[i].name, params[j].name)
  }

  /** The value of the last parameter of that name. */
  function Find(params: seq<Param>, name: string): Option<string> {
    if params == [] then None
    else if SameName(params[|params| - 1].name, name) then Some(params[|params| - 1].value)
    else Find(params[..|params| - 1], name)
  }

  datatype Bearer = Bearer(realm: string, service: Option<string>, scope: Option<string>)

  /** The challenge a parameter list amounts to. */
  ghost function Assemble(params: seq<Param>): Option<Bearer> {
    var realm := Find(params, "realm");
    if NamesDistinct(params) && realm.Some? && realm.value != [] then
      Some(Bearer(realm.value, Find(params, "service"), Find(params, "scope")))
    else None
  }

  ghost function Parsed(s: string): Option<Bearer> {
    if Params(s).Some? then Assemble(Params(s).value) else None
  }

  // ---------------------------------------------------------------------------------------------
  // The scanners as loops
  // ---------------------------------------------------------------------------------------------

  lemma {:induction false} UnquotePlain(s: string, i: nat)
    requires i <= |s| && forall j :: 0 <= j < i ==> s[j] != '"' && s[j] != '\\'
    ensures Unquote(s) == Prepend(s[..i], Unquote(s[i..]))
  {
    if i == 0 {
      assert s[0..] == s;
      PrependNothing(Unquote(s));
      assert s[..0] == [];
    } else {
      UnquotePlain(s, i - 1);
      var rest := s[i - 1..];
      assert rest[1..] == s[i..] && rest[0] == s[i - 1];
      PrependTwice(s[..i - 1], [s[i - 1]], Unquote(s[i..]));
      assert s[..i - 1] + [s[i - 1]] == s[..i];
    }
  }

  lemma PrependNothing(rest: Option<(string, string)>)
    ensures Prepend([], rest) == rest
  {
    if rest.Some? { assert [] + rest.value.0 == rest.value.0; }
  }

  lemma PrependTwice(a: string, b: string, rest: Option<(string, string)>)
    ensures Prepend(a, Prepend(b, rest)) == Prepend(a + b, rest)
  {
    if rest.Some? { assert a + (b + rest.value.0) == a + b + rest.value.0; }
  }

  /** The unescaping path, entered at the first backslash, reads what `Unquote` reads. */
  method UnescapeQuoted(value: string, firstEscape: nat) returns (r: Option<(string, string)>)
    requires firstEscape <= |value|
    requires forall j :: 0 <= j < firstEscape ==> value[j] != '"' && value[j] != '\\'
    ensures r == Unquote(value)
  {
    var decoded := value[..firstEscape];
    var index := firstEscape;
    UnquotePlain(value, firstEscape);
    while index < |value|
      invariant firstEscape <= index <= |value|
      invariant Unquote(value) == Prepend(decoded, Unquote(value[index..]))
    {
      var rest := value[index..];
      if value[index] == '"' {
        assert rest[1..] == value[index + 1..];
        assert decoded + [] == decoded;
        return Some((decoded, value[index + 1..]));
      }
      if value[index] == '\\' {
        if index + 1 >= |value| || !IsQuotedPair(value[index + 1]) {
          return None;
        }
        assert rest[2..] == value[index + 2..];
        PrependTwice(decoded, [value[index + 1]], Unquote(value[index + 2..]));
        decoded := decoded + [value[index + 1]];
        index := index + 2;
      } else {
        assert rest[1..] == value[index + 1..];
        PrependTwice(decoded, [value[index]], Unquote(value[index + 1..]));
        decoded := decoded + [value[index]];
        index := index + 1;
      }
    }
    assert value[index..] == [];
    r := None;
  }

  method AuthValue(value: string) returns (r: Option<(string, string)>)
    ensures r == Value(value)
  {
    if value != [] && value[0] == '"' {
      var inner := value[1..];
      for index := 0 to |inner|
        invariant forall j :: 0 <= j < index ==> inner[j] != '"' && inner[j] != '\\'
      {
        UnquotePlain(inner, index);
        if inner[index] == '"' {
          assert inner[index..][1..] == inner[index + 1..];
          assert inner[..index] + [] == inner[..index];
          return Some((inner[..index], inner[index + 1..]));
        }
        if inner[index] == '\\' {
          r := UnescapeQuoted(inner, index);
          return;
        }
      }
      UnquotePlain(inner, |inner|);
      return None;
    }
    var len := TokenLen(value);
    r := if len > 0 then Some((value[..len], value[len..])) else None;
  }

  method AuthParameter(value: string) returns (r: Option<(Param, string)>)
    ensures r == Parameter(value)
  {
    var v := TrimOws(value);
    var keyLen := TokenLen(v);
    var rest := TrimOws(v[keyLen..]);
    if rest == [] || rest[0] != '=' { return None; }
    var read := AuthValue(TrimOws(rest[1..]));
    r := if read.None? then None else Some((Param(v[..keyLen], read.value.0), read.value.1));
  }

  lemma FindAppend(params: seq<Param>, p: Param, name: string)
    ensures Find(params + [p], name) == if SameName(p.name, name) then Some(p.value) else Find(params, name)
  {
    assert (params + [p])[..|params|] == params;
  }

  lemma {:induction false} FindIff(params: seq<Param>, name: string)
    ensures Find(params, name).Some? <==> Named(params, name)
  {
    if params != [] {
      var rest := params[..|params| - 1];
      FindIff(rest, name);
      if Named(rest, name) {
        var i :| 0 <= i < |rest| && SameName(rest[i].name, name);
        assert params[i] == rest[i];
      }
      if Named(params, name) && !SameName(params[|params| - 1].name, name) {
        var i :| 0 <= i < |params| && SameName(params[i].name, name);
        assert rest[i] == params[i];
      }
    }
  }

  /** A name seen before makes the list a duplicate, whatever follows. */
  lemma DuplicateForGood(params: seq<Param>, p: Param, more: seq<Param>)
    requires Named(params, p.name)
    ensures !NamesDistinct(params + [p] + more)
  {
    var i :| 0 <= i < |params| && SameName(params[i].name, p.name);
    var all := params + [p] + more;
    assert all[i] == params[i] && all[|params|] == p;
  }

  lemma DistinctAppend(params: seq<Param>, p: Param)
    requires NamesDistinct(params) && !Named(params, p.name)
    ensures NamesDistinct(params + [p])
  {
  }

  /** What the parse returns once `seen` was read and `rest` remains. */
  ghost function Resumed(seen: seq<Param>, rest: string): Option<Bearer> {
    if Params(rest).Some? then Assemble(seen + Params(rest).value) else None
  }

  lemma ResumeStep(seen: seq<Param>, rest: string, p: Param, tail: string)
    requires StartsParameter(rest) && Parameter(rest) == Some((p, tail))
    ensures Named(seen, p.name) ==> Resumed(seen, rest) == None
    ensures TrimOws(tail) == [] ==> Resumed(seen, rest) == Assemble(seen + [p])
    ensures TrimOws(tail) != [] && TrimOws(tail)[0] != ',' ==> Resumed(seen, rest) == None
    ensures TrimOws(tail) != [] && TrimOws(tail)[0] == ',' ==>
      Resumed(seen, rest) == Resumed(seen + [p], TrimOws(TrimOws(tail)[1..]))
  {
    hide Find, NamesDistinct, StartsParameter, Parameter, TrimOws, Named;
    var r := TrimOws(tail);
    if r != [] && r[0] == ',' && Params(TrimOws(r[1..])).Some? {
      var more := Params(TrimOws(r[1..])).value;
      assert seen + ([p] + more) == seen + [p] + more;
    }
    if Named(seen, p.name) && Params(rest).Some? {
      FirstParam(rest, p, tail);
      var more := Params(rest).value[1..];
      assert seen + Params(rest).value == seen + [p] + more;
      DuplicateForGood(seen, p, more);
    }
  }

  lemma FirstParam(rest: string, p: Param, tail: string)
    requires StartsParameter(rest) && Parameter(rest) == Some((p, tail)) && Params(rest).Some?
    ensures |Params(rest).value| > 0 && Params(rest).value == [p] + Params(rest).value[1..]
  {
    hide StartsParameter, Parameter, TrimOws;
  }

  lemma ResumeStart(text: string)
    ensures Resumed([], text) == Parsed(text)
  {
    if Params(text).Some? { assert [] + Params(text).value == Params(text).value; }
  }

  lemma ResumeEnd(seen: seq<Param>, rest: string)
    ensures !StartsParameter(rest) || rest == [] ==> Resumed(seen, rest) == Assemble(seen)
  {
    assert seen + [] == seen;
  }

  lemma ResumeMalformed(seen: seq<Param>, rest: string)
    ensures StartsParameter(rest) && Parameter(rest).None? ==> Resumed(seen, rest) == None
  {
  }

  lemma NothingSeen()
    ensures Find([], "realm") == None && Find([], "service") == None && Find([], "scope") == None
    ensures Extensions([]) == []
  {
  }

  /** The names of the parameters that are none of realm, service and scope. */
  function Extensions(params: seq<Param>): seq<string> {
    if params == [] then [] else
      var last := params[|params| - 1];
      var front := Extensions(params[..|params| - 1]);
      if SameName(last.name, "realm") || SameName(last.name, "service") || SameName(last.name, "scope") then front
      else front + [last.name]
  }

  lemma {:induction false} ExtensionsIff(params: seq<Param>, name: string)
    requires !SameName(name, "realm") && !SameName(name, "service") && !SameName(name, "scope")
    ensures Named(params, name) <==> exists i :: 0 <= i < |Extensions(params)| && SameName(name, Extensions(params)[i])
  {
    if params != [] {
      var last := params[|params| - 1];
      var rest := params[..|params| - 1];
      ExtensionsIff(rest, name);
      NamedAppend(rest, last, name);
      assert rest + [last] == params;
      var front := Extensions(rest);
      if Extensions(params) != front {
        assert Extensions(params) == front + [last.name];
        assert Extensions(params)[|front|] == last.name;
        if i :| 0 <= i < |front| && SameName(name, front[i]) {
          assert Extensions(params)[i] == front[i];
        }
      }
    }
  }

  lemma NamedAppend(params: seq<Param>, p: Param, name: string)
    ensures Named(params + [p], name) <==> Named(params, name) || SameName(p.name, name)
  {
    if Named(params, name) {
      var i :| 0 <= i < |params| && SameName(params[i].name, name);
      assert (params + [p])[i] == params[i];
    }
    assert (params + [p])[|params|] == p;
  }

  method ParseBearerParameters(text: string) returns (r: Option<Bearer>)
    ensures r == Parsed(text)
  {
    hide Params, Parameter, StartsParameter, TrimOws, Extensions, Find, SameName, Parsed, Resumed;
    var rest := text;
    var realm: Option<string> := None;
    var service: Option<string> := None;
    var scope: Option<string> := None;
    var extensionNames: seq<string> := [];
    ghost var seen: seq<Param> := [];
    NothingSeen();
    ResumeStart(text);
    while StartsParameter(rest)
      invariant NamesDistinct(seen)
      invariant realm == Find(seen, "realm") && service == Find(seen, "service") && scope == Find(seen, "scope")
      invariant extensionNames == Extensions(seen)
      invariant Resumed(seen, rest) == Parsed(text)
      decreases |rest|
    {
      var read := AuthParameter(rest);
      ResumeMalformed(seen, rest);
      if read.None? { return None; }
      var (p, tail) := read.value;
      ResumeStep(seen, rest, p, tail);
      var duplicate: bool;
      duplicate, realm, service, scope, extensionNames := Assign(p, realm, service, scope, extensionNames, seen);
      if duplicate { return None; }
      DistinctAppend(seen, p);
      seen := seen + [p];
      TrimShorter(tail);
      rest := TrimOws(tail);
      if rest == [] { break; }
      if rest[0] != ',' { return None; }
      TrimShorter(rest[1..]);
      rest := TrimOws(rest[1..]);
      ResumeEnd(seen, rest);
      if rest == [] { break; }
    }
    ResumeEnd(seen, rest);
    assert Parsed(text) == Assemble(seen);
    if realm.None? || realm.value == [] { return None; }
    r := Some(Bearer(realm.value, service, scope));
  }

  /** Take one parameter into the three fields and the extension names, unless its name was taken. */
  method Assign(p: Param, realm: Option<string>, service: Option<string>, scope: Option<string>,
                extensionNames: seq<string>, ghost seen: seq<Param>)
    returns (duplicate: bool, realm': Option<string>, service': Option<string>, scope': Option<string>,
             extensionNames': seq<string>)
    requires realm == Find(seen, "realm") && service == Find(seen, "service") && scope == Find(seen, "scope")
    requires extensionNames == Extensions(seen)
    ensures duplicate <==> Named(seen, p.name)
    ensures !duplicate ==>
      && realm' == Find(seen + [p], "realm")
      && service' == Find(seen + [p], "service")
      && scope' == Find(seen + [p], "scope")
      && extensionNames' == Extensions(seen + [p])
  {
    realm', service', scope', extensionNames' := realm, service, scope, extensionNames;
    FindAppend(seen, p, "realm");
    FindAppend(seen, p, "service");
    FindAppend(seen, p, "scope");
    FindIff(seen, "realm");
    FindIff(seen, "service");
    FindIff(seen, "scope");
    assert (seen + [p])[..|seen|] == seen;
    assert Lower("realm") == "realm" && Lower("service") == "service" && Lower("scope") == "scope";
    if SameName(p.name, "realm") {
      if realm.Some? { return true, realm, service, scope, extensionNames; }
      realm' := Some(p.value);
    } else if SameName(p.name, "service") {
      if service.Some? { return true, realm, service, scope, extensionNames; }
      service' := Some(p.value);
    } else if SameName(p.name, "scope") {
      if scope.Some? { return true, realm, service, scope, extensionNames; }
      scope' := Some(p.value);
    } else {
      ExtensionsIff(seen, p.name);
      if exists i :: 0 <= i < |extensionNames| && SameName(p.name, extensionNames[i]) {
        return true, realm, service, scope, extensionNames;
      }
      extensionNames' := extensionNames + [p.name];
    }
    duplicate := false;
  }
}
