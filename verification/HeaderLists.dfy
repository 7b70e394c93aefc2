/** The header-list parser (util.go): tokens, quoted strings, and the extension lists of section 9.1 of RFC 6455. */
module HeaderLists {

  // The functions that the parsing methods compute

  predicate IsSpace(c: char) {
    c == ' ' || c == '\t'
  }

  /** Token octets per RFC 2616. */
  predicate IsTokenOctet(c: char) {
    || '0' <= c <= '9' || 'A' <= c <= 'Z' || 'a' <= c <= 'z'
    || c in {'!', '#', '$', '%', '&', '\'', '*', '+', '-', '.', '^', '_', '`', '|', '~'}
  }

  /** The separators of section 2.2 of RFC 2616. */
  const SEPARATORS := {'(', ')', '<', '>', '@', ',', ';', ':', '\\', '"', '/', '[', ']', '?', '=', '{', '}', ' ', '\t'}

  /** A token octet is a character of section 2.2 of RFC 2616 that is neither a control character nor a separator. */
  lemma TokenOctets(c: char)
    ensures IsTokenOctet(c) <==> '!' <= c <= '~' && c !in SEPARATORS
  {}

  /** White space is what separates without being seen. */
  lemma SpaceOctets(c: char)
    ensures IsSpace(c) <==> c in SEPARATORS && !('!' <= c <= '~')
  {}

  function SpaceEnd(s: string): (n: nat)
    ensures n <= |s|
  {
    if s != "" && IsSpace(s[0]) then 1 + SpaceEnd(s[1..]) else 0
  }

  function Skip(s: string): (rest: string)
    ensures |rest| <= |s|
  {
    s[SpaceEnd(s)..]
  }

  function TokenEnd(s: string): (n: nat)
    ensures n <= |s|
  {
    if s != "" && IsTokenOctet(s[0]) then 1 + TokenEnd(s[1..]) else 0
  }

  /** A value and the string that follows it. */
  datatype Taken = Taken(value: string, rest: string)

  function Token(s: string): (t: Taken)
    ensures |t.value| + |t.rest| == |s|
  {
    Taken(s[..TokenEnd(s)], s[TokenEnd(s)..])
  }

  /** The rest of a quoted string after its opening quote, value being what has been unescaped so far: a backslash
      stands for the octet after it; without a closing quote there is no value and no rest. */
  function Unquote(value: string, s: string): (t: Taken)
    ensures |t.rest| <= |s|
    decreases |s|
  {
    if s == "" then Taken("", "")
    else if s[0] == '"' then Taken(value, s[1..])
    else if s[0] != '\\' then Unquote(value + [s[0]], s[1..])
    else if |s| == 1 then Taken("", "")
    else Unquote(value + [s[1]], s[2..])
  }

  predicate StartsWith(s: string, c: char) {
    s != "" && s[0] == c
  }

  function TokenOrQuoted(s: string): (t: Taken)
    ensures |t.rest| <= |s|
  {
    if StartsWith(s, '"') then Unquote("", s[1..]) else Token(s)
  }

  /** The extension and its parameters, keyed by name, the name of the extension under the empty key. */
  type Extension = map<string, string>

  datatype Params = Params(ext: Extension, rest: string) | Malformed

  /** The value after a parameter's name, empty when there is none. */
  function ParamValue(s: string): (t: Taken)
    ensures |t.rest| <= |s|
  {
    if StartsWith(s, '=') then
      var t := TokenOrQuoted(Skip(s[1..]));
      t.(rest := Skip(t.rest))
    else
      Taken("", s)
  }

  function ParseParams(ext: Extension, s0: string): (r: Params)
    ensures r.Params? ==> |r.rest| <= |s0|
    decreases |s0|
  {
    var s := Skip(s0);
    if !StartsWith(s, ';') then Params(ext, s)
    else
      var k := Token(Skip(s[1..]));
      if k.value == "" then Malformed
      else
        var v := ParamValue(Skip(k.rest));
        if v.rest != "" && v.rest[0] != ',' && v.rest[0] != ';' then Malformed
        else ParseParams(ext[k.value := v.value], v.rest)
  }

  /** The extensions of one header line, up to the first malformed element. */
  function ParseLine(s: string): seq<Extension>
    decreases |s|
  {
    var t := Token(Skip(s));
    if t.value == "" then []
    else
      var p := ParseParams(map["" := t.value], t.rest);
      if p.Malformed? || (p.rest != "" && p.rest[0] != ',') then []
      else if p.rest == "" then [p.ext]
      else [p.ext] + ParseLine(p.rest[1..])
  }

  function ParseLines(lines: seq<string>): seq<Extension> {
    if lines == [] then [] else ParseLine(lines[0]) + ParseLines(lines[1..])
  }

  // The code

  method SkipSpace(s: string) returns (rest: string)
    ensures rest == Skip(s)
  {
    var i := 0;
    while i < |s|
      invariant i <= |s| && SpaceEnd(s) == i + SpaceEnd(s[i..])
    {
      if s[i] != ' ' && s[i] != '\t' {
        break;
      }
      i := i + 1;
    }
    return s[i..];
  }

  method NextToken(s: string) returns (token: string, rest: string)
    ensures Taken(token, rest) == Token(s)
  {
    var i := 0;
    while i < |s|
      invariant i <= |s| && TokenEnd(s) == i + TokenEnd(s[i..])
    {
      if !IsTokenOctet(s[i]) {
        break;
      }
      i := i + 1;
    }
    return s[..i], s[i..];
  }

  /** The scratch buffer p is one octet shorter than the string after the opening quote, and is never overrun. */
  method NextTokenOrQuoted(s0: string) returns (value: string, rest: string)
    ensures Taken(value, rest) == TokenOrQuoted(s0)
  {
    if !StartsWith(s0, '"') {
      value, rest := NextToken(s0);
      return;
    }
    var s := s0[1..];
    var i := 0;
    while i < |s|
      invariant i <= |s| && Unquote("", s) == Unquote(s[..i], s[i..])
    {
      if s[i] == '"' {
        return s[..i], s[i + 1..];
      }
      if s[i] == '\\' {
        value, rest := UnescapeFrom(s, i);
        return;
      }
      assert s[..i + 1] == s[..i] + [s[i]] && s[i..][1..] == s[i + 1..];
      i := i + 1;
    }
    return "", "";
  }

  /** One step of Unquote, at position i of s. */
  lemma UnquoteAt(v: string, s: string, i: nat)
    requires i < |s|
    ensures s[i] == '"' ==> Unquote(v, s[i..]) == Taken(v, s[i + 1..])
    ensures s[i] != '"' && s[i] != '\\' ==> Unquote(v, s[i..]) == Unquote(v + [s[i]], s[i + 1..])
    ensures s[i] == '\\' && i + 1 < |s| ==> Unquote(v, s[i..]) == Unquote(v + [s[i + 1]], s[i + 2..])
    ensures s[i] == '\\' && i + 1 == |s| ==> Unquote(v, s[i..]) == Taken("", "")
  {
    assert s[i..][1..] == s[i + 1..];
    if i + 1 < |s| {
      assert s[i..][2..] == s[i + 2..];
    }
  }

  lemma UnquoteEnd(v: string, s: string)
    ensures Unquote(v, s[|s|..]) == Taken("", "")
  {}

  /** The loop of nextTokenOrQuoted from the first backslash on. */
  method UnescapeFrom(s: string, start: nat) returns (value: string, rest: string)
    requires start < |s| && s[start] == '\\'
    ensures Taken(value, rest) == Unquote(s[..start], s[start..])
  {
    hide Unquote;
    var p := new char[|s| - 1];
    forall k | 0 <= k < start {
      p[k] := s[k];
    }
    var j := start;
    var escape := true;
    var i := start + 1;
    assert p[..j] == s[..start];
    while i < |s|
      invariant start < i <= |s| && j < i && j <= p.Length
      invariant Unquote(s[..start], s[start..]) == Unquote(p[..j], s[if escape then i - 1 else i..])
      invariant escape ==> s[i - 1] == '\\'
    {
      var b := s[i];
      ghost var before := p[..j];
      UnquoteAt(before, s, if escape then i - 1 else i);
      if escape {
        escape := false;
        p[j] := b;
        j := j + 1;
        assert p[..j] == before + [b];
      } else if b == '\\' {
        escape := true;
      } else if b == '"' {
        return p[..j], s[i + 1..];
      } else {
        p[j] := b;
        j := j + 1;
        assert p[..j] == before + [b];
      }
      i := i + 1;
    }
    if escape {
      UnquoteAt(p[..j], s, i - 1);
    }
    UnquoteEnd(p[..j], s);
    return "", "";
  }

  lemma Append(a: seq<Extension>, b: seq<Extension>, c: seq<Extension>)
    ensures a + b + c == a + (b + c)
    ensures a + [] == a
  {}

  /** parseExtensions, over the values of the header. */
  method ParseExtensions(header: seq<string>) returns (result: seq<Extension>)
    ensures result == ParseLines(header)
  {
    hide ParseLine;
    result := [];
    var n := 0;
    assert header[0..] == header;
    while n < |header|
      invariant n <= |header| && result + ParseLines(header[n..]) == ParseLines(header)
    {
      var more := ParseHeaderLine(header[n]);
      assert header[n..][1..] == header[n + 1..];
      Append(result, more, ParseLines(header[n + 1..]));
      result := result + more;
      n := n + 1;
    }
  }

  /** The loop of parseExtensions over one header line. */
  method ParseHeaderLine(line: string) returns (result: seq<Extension>)
    ensures result == ParseLine(line)
  {
    hide ParseParams, Token, Skip;
    result := [];
    var s := line;
    while true
      invariant ParseLine(line) == result + ParseLine(s)
      decreases |s|
    {
      var t;
      t, s := SkipAndToken(s);
      if t == "" {
        return;
      }
      ghost var start := s;
      var ext: Extension := map["" := t];
      var malformed;
      malformed, ext, s := ParseParameters(ext, s);
      if malformed || (s != "" && s[0] != ',') {
        return;
      }
      Append(result, [ext], if s == "" then [] else ParseLine(s[1..]));
      result := result + [ext];
      if s == "" {
        return;
      }
      s := s[1..];
    }
  }

  method SkipAndToken(s: string) returns (token: string, rest: string)
    ensures Taken(token, rest) == Token(Skip(s))
  {
    var s' := SkipSpace(s);
    token, rest := NextToken(s');
  }

  /** The loop of parseExtensions over the parameters of one extension. */
  method ParseParameters(ext0: Extension, s0: string) returns (malformed: bool, ext: Extension, s: string)
    ensures malformed == ParseParams(ext0, s0).Malformed?
    ensures !malformed ==> ParseParams(ext0, s0) == Params(ext, s)
  {
    ext, s, malformed := ext0, s0, false;
    while true
      invariant !malformed && ParseParams(ext0, s0) == ParseParams(ext, s)
      decreases |s|
    {
      s := SkipSpace(s);
      if !StartsWith(s, ';') {
        return;
      }
      ghost var rest := s;
      var k;
      k, s := SkipAndToken(s[1..]);
      if k == "" {
        malformed := true;
        return;
      }
      s := SkipSpace(s);
      var v := "";
      if StartsWith(s, '=') {
        s := SkipSpace(s[1..]);
        v, s := NextTokenOrQuoted(s);
        s := SkipSpace(s);
      }
      if s != "" && s[0] != ',' && s[0] != ';' {
        malformed := true;
        return;
      }
      ext := ext[k := v];
    }
  }

  // Printing, and the round trip

  /** An octet of a quoted string, written as it is or behind a backslash. */
  datatype QuotedOctet = Plain(c: char) | Escaped(c: char)

  /** The value of a parameter. The last two are malformed, but the code takes them: an equals sign with nothing after
      it, and a quoted string without an end, the last octet of which may be a backslash. */
  datatype Value =
    | NoValue
    | TokenValue(token: string)
    | QuotedValue(octets: seq<QuotedOctet>)
    | MissingValue
    | OpenQuote(octets: seq<QuotedOctet>, backslash: bool)

  /** A parameter, with the white space before and after its semicolon and before and after its equals sign. */
  datatype Param = Param(name: string, value: Value, w0: string, w1: string, w2: string, w3: string)

  /** An extension, with the white space before it and after it. */
  datatype Element = Element(name: string, params: seq<Param>, before: string, after: string)

  predicate AllSpace(s: string) {
    forall c :: c in s ==> IsSpace(c)
  }

  predicate IsToken(s: string) {
    s != "" && forall c :: c in s ==> IsTokenOctet(c)
  }

  predicate ValidQuoted(qs: seq<QuotedOctet>) {
    forall q :: q in qs ==> q.Plain? ==> q.c != '"' && q.c != '\\'
  }

  /** A parameter that the code takes. */
  predicate KeptParam(p: Param) {
    && IsToken(p.name)
    && AllSpace(p.w0) && AllSpace(p.w1) && AllSpace(p.w2) && AllSpace(p.w3)
    && match p.value
       case NoValue => true
       case TokenValue(t) => IsToken(t)
       case QuotedValue(qs) => ValidQuoted(qs)
       case MissingValue => true
       case OpenQuote(qs, _) => ValidQuoted(qs)
  }

  predicate KeptParams(ps: seq<Param>) {
    forall p :: p in ps ==> KeptParam(p)
  }

  /** A parameter as section 9.1 of RFC 6455 has it. */
  predicate ValidParam(p: Param) {
    KeptParam(p) && !p.value.MissingValue? && !p.value.OpenQuote?
  }

  predicate ValidParams(ps: seq<Param>) {
    forall p :: p in ps ==> ValidParam(p)
  }

  /** A quoted string without an end takes up all that follows it. */
  predicate OpenOnlyLast(ps: seq<Param>, rest: string) {
    forall i :: 0 <= i < |ps| && ps[i].value.OpenQuote? ==> i == |ps| - 1 && rest == ""
  }

  /** An element that the code takes, before the rest x of its line. */
  predicate KeptElement(e: Element, x: string) {
    && IsToken(e.name) && AllSpace(e.before) && AllSpace(e.after)
    && KeptParams(e.params) && OpenOnlyLast(e.params, e.after + x)
    && (x == "" || x[0] == ',')
  }

  predicate ValidElement(e: Element) {
    IsToken(e.name) && AllSpace(e.before) && AllSpace(e.after) && ValidParams(e.params)
  }

  function QuotedText(qs: seq<QuotedOctet>): string {
    if qs == [] then "" else (if qs[0].Plain? then [qs[0].c] else ['\\', qs[0].c]) + QuotedText(qs[1..])
  }

  function QuotedMeaning(qs: seq<QuotedOctet>): string {
    if qs == [] then "" else [qs[0].c] + QuotedMeaning(qs[1..])
  }

  function ValueText(p: Param): string {
    match p.value
    case NoValue => ""
    case TokenValue(t) => p.w2 + "=" + p.w3 + t
    case QuotedValue(qs) => p.w2 + "=" + p.w3 + "\"" + QuotedText(qs) + "\""
    case MissingValue => p.w2 + "=" + p.w3
    case OpenQuote(qs, backslash) => p.w2 + "=" + p.w3 + "\"" + QuotedText(qs) + if backslash then "\\" else ""
  }

  function Meaning(v: Value): string {
    match v
    case NoValue => ""
    case TokenValue(t) => t
    case QuotedValue(qs) => QuotedMeaning(qs)
    case MissingValue => ""
    case OpenQuote(_, _) => ""
  }

  /** A parameter from its semicolon on. */
  function ParamRest(p: Param): (s: string)
    ensures s != "" && s[0] == ';'
  {
    ";" + p.w1 + p.name + ValueText(p)
  }

  function ParamText(p: Param): string {
    p.w0 + ParamRest(p)
  }

  function ParamsText(ps: seq<Param>): string {
    if ps == [] then "" else ParamText(ps[0]) + ParamsText(ps[1..])
  }

  function ElementText(e: Element): string {
    e.before + e.name + ParamsText(e.params) + e.after
  }

  /** Section 9.1 of RFC 6455: the elements, separated by commas. */
  function ListText(es: seq<Element>): string {
    if es == [] then ""
    else if |es| == 1 then ElementText(es[0])
    else ElementText(es[0]) + "," + ListText(es[1..])
  }

  /** The map an element stands for: the last of equal parameters wins. */
  function ParamsMeaning(ext: Extension, ps: seq<Param>): Extension
    decreases |ps|
  {
    if ps == [] then ext else ParamsMeaning(ext[ps[0].name := Meaning(ps[0].value)], ps[1..])
  }

  function ElementMeaning(e: Element): Extension {
    ParamsMeaning(map["" := e.name], e.params)
  }

  function ListMeaning(es: seq<Element>): seq<Extension> {
    seq(|es|, i requires 0 <= i < |es| => ElementMeaning(es[i]))
  }

  // The pieces

  predicate NoTokenOctet(s: string) {
    s == "" || !IsTokenOctet(s[0])
  }

  lemma {:induction false} SkipThrough(w: string, s: string)
    requires AllSpace(w)
    ensures Skip(w + s) == Skip(s)
  {
    if w == "" {
      assert w + s == s;
    } else {
      assert w[0] in w;
      assert (w + s)[1..] == w[1..] + s;
      SkipThrough(w[1..], s);
    }
  }

  /** White space, and what comes behind it. */
  lemma {:induction false} SkipSplits(s: string) returns (w: string)
    ensures AllSpace(w) && s == w + Skip(s)
    ensures Skip(s) != "" ==> !IsSpace(Skip(s)[0])
    ensures Skip(Skip(s)) == Skip(s)
  {
    hide IsSpace;
    w := "";
    if s == "" || !IsSpace(s[0]) {
      assert Skip(s) == s && w + s == s;
    } else {
      w := SkipSplits(s[1..]);
      assert Skip(s) == Skip(s[1..]) && s == [s[0]] + (w + Skip(s));
      assert [s[0]] + (w + Skip(s)) == [s[0]] + w + Skip(s);
      w := [s[0]] + w;
    }
  }

  lemma {:induction false} TokenAll(t: string, s: string)
    requires (forall c :: c in t ==> IsTokenOctet(c)) && NoTokenOctet(s)
    ensures Token(t + s) == Taken(t, s)
  {
    if t == "" {
      assert t + s == s;
    } else {
      assert t[0] in t;
      assert (t + s)[1..] == t[1..] + s;
      TokenAll(t[1..], s);
    }
  }

  lemma {:induction false} TokenSplits(s: string)
    ensures var t := Token(s);
            && s == t.value + t.rest && NoTokenOctet(t.rest)
            && (t.value != "" ==> IsToken(t.value))
            && (t.value == "" ==> NoTokenOctet(s))
  {
    if s != "" && IsTokenOctet(s[0]) {
      TokenSplits(s[1..]);
      assert Token(s) == Taken([s[0]] + Token(s[1..]).value, Token(s[1..]).rest);
    }
  }

  // What the text of an element says of its form

  /** There is a closing quote. */
  predicate Closed(s: string)
    decreases |s|
  {
    if s == "" then false
    else if s[0] == '"' then true
    else if s[0] != '\\' then Closed(s[1..])
    else |s| > 1 && Closed(s[2..])
  }

  /** Behind the name of a parameter there is no equals sign, or one with a value. */
  predicate ValueGiven(s: string) {
    StartsWith(s, '=') ==>
      var t := Skip(s[1..]);
      if StartsWith(t, '"') then Closed(t[1..]) else Token(t).value != ""
  }

  predicate ValuesGiven(s0: string)
    decreases |s0|
  {
    var s := Skip(s0);
    StartsWith(s, ';') ==>
      var k := Token(Skip(s[1..]));
      k.value != "" ==> ValueGiven(Skip(k.rest)) && ValuesGiven(ParamValue(Skip(k.rest)).rest)
  }

  /** No parameter of the first element on the line has an equals sign without a value, or a quote without an end. */
  predicate NothingMissing(s: string) {
    ValuesGiven(Token(Skip(s)).rest)
  }

  /** Quoting and then unquoting is the identity, and leaves exactly what follows the closing quote. */
  lemma {:induction false} UnquoteAll(v: string, qs: seq<QuotedOctet>, s: string)
    requires ValidQuoted(qs)
    ensures Unquote(v, QuotedText(qs) + "\"" + s) == Taken(v + QuotedMeaning(qs), s)
    ensures Closed(QuotedText(qs) + "\"" + s)
    decreases |qs|
  {
    var text := QuotedText(qs) + "\"" + s;
    if qs == [] {
      assert text == "\"" + s && v + "" == v;
    } else {
      var q, rest := qs[0], QuotedText(qs[1..]) + "\"" + s;
      assert q in qs;
      if q.Plain? {
        assert text == [q.c] + rest;
      } else {
        assert text == ['\\', q.c] + rest;
      }
      UnquoteAll(v + [q.c], qs[1..], s);
      assert v + [q.c] + QuotedMeaning(qs[1..]) == v + QuotedMeaning(qs);
    }
  }

  /** Without the closing quote there is no value, and nothing is left. */
  lemma {:induction false} UnquoteOpen(v: string, qs: seq<QuotedOctet>, backslash: bool)
    requires ValidQuoted(qs)
    ensures var s := QuotedText(qs) + if backslash then "\\" else "";
            Unquote(v, s) == Taken("", "") && !Closed(s)
    decreases |qs|
  {
    if qs != [] {
      var q, rest := qs[0], QuotedText(qs[1..]) + if backslash then "\\" else "";
      assert q in qs;
      assert QuotedText(qs) + (if backslash then "\\" else "") == (if q.Plain? then [q.c] else ['\\', q.c]) + rest;
      UnquoteOpen(v + [q.c], qs[1..], backslash);
    }
  }

  /** What is behind an opening quote, taken apart. */
  lemma {:induction false} UnquoteSplits(v: string, s: string) returns (qs: seq<QuotedOctet>, backslash: bool)
    ensures ValidQuoted(qs)
    ensures if Closed(s) then s == QuotedText(qs) + "\"" + Unquote(v, s).rest
                            && Unquote(v, s).value == v + QuotedMeaning(qs)
            else s == QuotedText(qs) + (if backslash then "\\" else "") && Unquote(v, s) == Taken("", "")
    decreases |s|
  {
    hide QuotedText, QuotedMeaning, Unquote, Closed;
    UnquoteStep(v, s);
    QuotedNil();
    qs, backslash := [], false;
    if s == "" {
    } else if s[0] == '"' {
      assert s == "" + "\"" + s[1..] && v + "" == v;
    } else if s[0] == '\\' && |s| == 1 {
      backslash := true;
      assert s == "" + "\\";
    } else {
      var q, k := if s[0] == '\\' then Escaped(s[1]) else Plain(s[0]), if s[0] == '\\' then 2 else 1;
      var rs;
      rs, backslash := UnquoteSplits(v + [q.c], s[k..]);
      qs := [q] + rs;
      QuotedCons(q, rs);
      assert s == s[..k] + s[k..];
      assert v + [q.c] + QuotedMeaning(rs) == v + QuotedMeaning(qs);
    }
  }

  lemma UnquoteStep(v: string, s: string)
    ensures var k := if s != "" && s[0] == '\\' then 2 else 1;
            if |s| < k then Unquote(v, s) == Taken("", "") && !Closed(s)
            else if s[0] == '"' then Unquote(v, s) == Taken(v, s[1..]) && Closed(s)
            else Unquote(v, s) == Unquote(v + [s[k - 1]], s[k..]) && Closed(s) == Closed(s[k..])
  {}

  lemma QuotedNil()
    ensures QuotedText([]) == "" && QuotedMeaning([]) == ""
  {}

  lemma QuotedCons(q: QuotedOctet, rs: seq<QuotedOctet>)
    ensures QuotedText([q] + rs) == (if q.Plain? then [q.c] else ['\\', q.c]) + QuotedText(rs)
    ensures QuotedMeaning([q] + rs) == [q.c] + QuotedMeaning(rs)
  {}

  // Reading what was printed

  /** The end, a comma or a semicolon. */
  predicate Stop(x: string) {
    x == "" || x[0] == ',' || x[0] == ';'
  }

  /** White space, and then a stop. */
  predicate Ends(end: string) {
    Stop(Skip(end))
  }

  lemma EndsNoToken(end: string)
    requires Ends(end)
    ensures NoTokenOctet(end)
  {
    if end != "" && !IsSpace(end[0]) {
      assert Skip(end) == end;
    }
  }

  lemma SpaceEnds(w: string, x: string)
    requires AllSpace(w) && Stop(x)
    ensures Ends(w + x) && Skip(w + x) == x
  {
    SkipThrough(w, x);
    if x != "" {
      assert !IsSpace(x[0]);
    }
  }

  lemma ParamsSkip(ext: Extension, s: string)
    ensures ParseParams(ext, Skip(s)) == ParseParams(ext, s) && ValuesGiven(Skip(s)) == ValuesGiven(s)
  {
    var w := SkipSplits(s);
    hide Skip;
  }

  lemma SpaceThen(w: string, c: char, rest: string)
    requires AllSpace(w) && (c == ';' || c == '=' || c == '"')
    ensures NoTokenOctet(w + [c] + rest) && Skip(w + [c] + rest) == [c] + rest
  {
    assert w + [c] + rest == w + ([c] + rest);
    SkipThrough(w, [c] + rest);
    assert Skip([c] + rest) == [c] + rest;
    if w != "" {
      assert w[0] in w;
    }
  }

  lemma SpaceThenToken(w: string, t: string, rest: string)
    requires AllSpace(w) && IsToken(t) && NoTokenOctet(rest)
    ensures Token(Skip(w + t + rest)) == Taken(t, rest) && Skip(w + t + rest) == t + rest
  {
    assert t[0] in t;
    assert w + t + rest == w + (t + rest);
    SkipThrough(w, t + rest);
    assert Skip(t + rest) == t + rest;
    TokenAll(t, rest);
  }

  /** The value of a parameter, up to the end behind it. */
  lemma ValueRead(p: Param, end: string)
    requires KeptParam(p) && Ends(end) && (p.value.OpenQuote? ==> end == "")
    ensures var y := ValueText(p) + end;
            && NoTokenOctet(y) && ParamValue(Skip(y)) == Taken(Meaning(p.value), Skip(end))
            && ValueGiven(Skip(y)) == ValidParam(p)
  {
    hide Skip, Token, Unquote, QuotedText, QuotedMeaning, Closed;
    EndsNoToken(end);
    match p.value
    case NoValue => assert ValueText(p) + end == end;
    case TokenValue(t) => TokenRead(p, t, end);
    case QuotedValue(qs) => QuotedRead(p, qs, end);
    case MissingValue => MissingRead(p, end);
    case OpenQuote(qs, backslash) => OpenRead(p, qs, backslash);
  }

  lemma EqualsRead(p: Param, rest: string)
    requires AllSpace(p.w2) && AllSpace(p.w3)
    ensures var y := p.w2 + "=" + (p.w3 + rest);
            NoTokenOctet(y) && Skip(y) == "=" + (p.w3 + rest) && Skip(Skip(y)[1..]) == Skip(rest)
  {
    hide Skip;
    SpaceThen(p.w2, '=', p.w3 + rest);
    assert ("=" + (p.w3 + rest))[1..] == p.w3 + rest;
    SkipThrough(p.w3, rest);
  }

  lemma TokenRead(p: Param, t: string, end: string)
    requires KeptParam(p) && p.value == TokenValue(t) && NoTokenOctet(end)
    ensures var y := ValueText(p) + end;
            NoTokenOctet(y) && ParamValue(Skip(y)) == Taken(t, Skip(end)) && ValueGiven(Skip(y))
  {
    hide Skip, Token;
    assert ValueText(p) + end == p.w2 + "=" + (p.w3 + (t + end));
    EqualsRead(p, t + end);
    SpaceThenToken("", t, end);
    assert "" + t + end == t + end;
    assert t[0] in t;
  }

  lemma QuotedRead(p: Param, qs: seq<QuotedOctet>, end: string)
    requires KeptParam(p) && p.value == QuotedValue(qs)
    ensures var y := ValueText(p) + end;
            NoTokenOctet(y) && ParamValue(Skip(y)) == Taken(QuotedMeaning(qs), Skip(end)) && ValueGiven(Skip(y))
  {
    hide Skip, Token, Unquote, QuotedText, QuotedMeaning, Closed;
    var text := QuotedText(qs) + "\"" + end;
    assert ValueText(p) + end == p.w2 + "=" + (p.w3 + (['"'] + text));
    EqualsRead(p, ['"'] + text);
    QuoteNext(text);
    UnquoteAll("", qs, end);
    assert "" + QuotedMeaning(qs) == QuotedMeaning(qs);
  }

  lemma QuoteNext(text: string)
    ensures Skip(['"'] + text) == ['"'] + text && (['"'] + text)[1..] == text
  {
    SpaceThen("", '"', text);
    assert "" + ['"'] + text == ['"'] + text;
  }

  lemma MissingRead(p: Param, end: string)
    requires KeptParam(p) && p.value == MissingValue && Ends(end)
    ensures var y := ValueText(p) + end;
            NoTokenOctet(y) && ParamValue(Skip(y)) == Taken("", Skip(end)) && !ValueGiven(Skip(y))
  {
    hide Skip;
    assert ValueText(p) + end == p.w2 + "=" + (p.w3 + end);
    EqualsRead(p, end);
    var w := SkipSplits(end);
    TokenAll("", Skip(end));
    assert "" + Skip(end) == Skip(end);
  }

  lemma OpenRead(p: Param, qs: seq<QuotedOctet>, backslash: bool)
    requires KeptParam(p) && p.value == OpenQuote(qs, backslash)
    ensures var y := ValueText(p) + "";
            NoTokenOctet(y) && ParamValue(Skip(y)) == Taken("", Skip("")) && !ValueGiven(Skip(y))
  {
    hide Skip, Token, Unquote, QuotedText, Closed;
    var text := QuotedText(qs) + if backslash then "\\" else "";
    assert ValueText(p) + "" == p.w2 + "=" + (p.w3 + (['"'] + text));
    EqualsRead(p, ['"'] + text);
    QuoteNext(text);
    UnquoteOpen("", qs, backslash);
  }

  /** One parameter, up to the end behind it. */
  lemma ParamRead(ext: Extension, p: Param, end: string)
    requires KeptParam(p) && Ends(end) && (p.value.OpenQuote? ==> end == "")
    ensures Ends(ParamText(p) + end)
    ensures ParseParams(ext, ParamText(p) + end) == ParseParams(ext[p.name := Meaning(p.value)], end)
    ensures ValuesGiven(ParamText(p) + end) == (ValidParam(p) && ValuesGiven(end))
  {
    hide Skip, Token, ParamValue, ValueText, ValueGiven;
    var y := ValueText(p) + end;
    var rest := p.w1 + p.name + y;
    assert ParamText(p) + end == p.w0 + [';'] + rest;
    ValueRead(p, end);
    SpaceThen(p.w0, ';', rest);
    assert ([';'] + rest)[1..] == rest;
    SpaceThenToken(p.w1, p.name, y);
    ParamsSkip(ext[p.name := Meaning(p.value)], end);
  }

  /** The parameters of an extension, up to the end behind them. */
  lemma {:induction false} ParamsRead(ext: Extension, ps: seq<Param>, end: string)
    requires KeptParams(ps) && OpenOnlyLast(ps, end) && Ends(end)
    ensures Ends(ParamsText(ps) + end)
    ensures ParseParams(ext, ParamsText(ps) + end) == ParseParams(ParamsMeaning(ext, ps), end)
    ensures ValuesGiven(ParamsText(ps) + end) == (ValidParams(ps) && ValuesGiven(end))
    decreases |ps|
  {
    hide ParseParams, ValuesGiven, ParamText, Ends, ValidParam;
    if ps == [] {
      assert ParamsText(ps) + end == end;
    } else {
      var p, rest := ps[0], ParamsText(ps[1..]) + end;
      assert p in ps;
      ParamsRead(ext[p.name := Meaning(p.value)], ps[1..], end);
      assert ParamsText(ps) + end == ParamText(p) + rest;
      assert |ps| == 1 ==> ParamsText(ps[1..]) + end == end;
      ParamRead(ext, p, rest);
      assert ValidParams(ps) == (ValidParam(p) && ValidParams(ps[1..])) by {
        assert ps == [p] + ps[1..];
      }
    }
  }

  lemma ParamsEnd(ext: Extension, w: string, x: string)
    requires AllSpace(w) && (x == "" || x[0] == ',')
    ensures Ends(w + x) && ParseParams(ext, w + x) == Params(ext, x) && ValuesGiven(w + x)
  {
    SpaceEnds(w, x);
  }

  /** One element, up to the end of the line or the comma after it. */
  lemma ElementRead(e: Element, x: string)
    requires KeptElement(e, x)
    ensures ParseLine(ElementText(e) + x) == [ElementMeaning(e)] + if x == "" then [] else ParseLine(x[1..])
    ensures NothingMissing(ElementText(e) + x) == ValidElement(e)
  {
    hide Skip, Token, ParseParams, ValuesGiven;
    var end := e.after + x;
    var rest := ParamsText(e.params) + end;
    assert ElementText(e) + x == e.before + e.name + rest;
    ParamsEnd(ElementMeaning(e), e.after, x);
    ParamsRead(map["" := e.name], e.params, end);
    EndsNoToken(rest);
    SpaceThenToken(e.before, e.name, rest);
  }

  // Taking apart what the code takes

  /** The first parameter, when there is one that the code takes. */
  lemma ParamsStep(ext: Extension, s: string)
    requires StartsWith(Skip(s), ';') && ParseParams(ext, s).Params?
    ensures var k := Token(Skip(Skip(s)[1..]));
            var v := ParamValue(Skip(k.rest));
            k.value != "" && Stop(v.rest) && ParseParams(ext, s) == ParseParams(ext[k.value := v.value], v.rest)
  {
    hide Skip, Token, ParamValue;
  }

  lemma ParamsStop(ext: Extension, s: string)
    requires !StartsWith(Skip(s), ';')
    ensures ParseParams(ext, s) == Params(ext, Skip(s))
  {
    hide Skip;
  }

  /** Parameters that the code takes, as a sequence. */
  lemma {:induction false} ParamsSplit(ext: Extension, s: string) returns (ps: seq<Param>, w: string)
    requires ParseParams(ext, s).Params?
    ensures var r := ParseParams(ext, s);
            && KeptParams(ps) && AllSpace(w) && OpenOnlyLast(ps, w + r.rest)
            && s == ParamsText(ps) + (w + r.rest) && r.ext == ParamsMeaning(ext, ps)
    decreases |s|
  {
    hide ParseParams, Skip, Token, ValueText, ParamValue, Stop;
    var w0 := SkipSplits(s);
    var t := Skip(s);
    if !StartsWith(t, ';') {
      ParamsStop(ext, s);
      ps, w := [], w0;
      assert ParamsText([]) + (w + t) == w + t;
    } else {
      ParamsStep(ext, s);
      var k := Token(Skip(t[1..]));
      var w1 := SkipSplits(t[1..]);
      TokenSplits(Skip(t[1..]));
      var value, w2, w3, rest := ValueSplit(k.rest);
      var p := Param(k.value, value, w0, w1, w2, w3);
      var ext' := ext[k.value := Meaning(value)];
      ParamsSkip(ext', rest);
      assert t == [';'] + t[1..];
      ParamSplitLength(w0, w1, k.value, k.rest, s);
      ps, w := ParamsSplit(ext', rest);
      assert rest == "" ==> ps == [] && w == "" by { NothingLeft(ps, w + ParseParams(ext', rest).rest); }
      SameValueText(p);
      ParamsCons(p, ps, w + ParseParams(ext', rest).rest);
      OpenCons(p, ps, w + ParseParams(ext', rest).rest);
      ps := [p] + ps;
    }
  }

  lemma ParamSplitLength(w0: string, w1: string, name: string, rest: string, s: string)
    requires s == w0 + ([';'] + (w1 + (name + rest)))
    ensures |rest| < |s|
  {}

  lemma NothingLeft(ps: seq<Param>, end: string)
    ensures ParamsText(ps) + end == "" ==> ps == [] && end == ""
  {
    if ps != [] {
      assert ParamText(ps[0]) != "" by {
        assert ParamRest(ps[0]) != "";
      }
    }
  }

  lemma SameValueText(p: Param)
    ensures ValueText(p) == ValueText(Param("k", p.value, "", "", p.w2, p.w3))
  {}

  lemma OpenCons(p: Param, ps: seq<Param>, end: string)
    requires KeptParam(p) && KeptParams(ps) && OpenOnlyLast(ps, end) && (p.value.OpenQuote? ==> ps == [] && end == "")
    ensures KeptParams([p] + ps) && OpenOnlyLast([p] + ps, end)
  {}

  lemma ParamsCons(p: Param, ps: seq<Param>, end: string)
    ensures ParamsText([p] + ps) + end
         == p.w0 + ([';'] + (p.w1 + (p.name + (ValueText(p) + (ParamsText(ps) + end)))))
  {
    hide ValueText;
    assert ([p] + ps)[1..] == ps;
    assert ParamText(p) == p.w0 + ([';'] + (p.w1 + (p.name + ValueText(p))));
  }

  /** The value behind the name of a parameter that the code takes. */
  lemma ValueSplit(s: string) returns (value: Value, w2: string, w3: string, rest: string)
    requires Stop(ParamValue(Skip(s)).rest)
    ensures var p := Param("k", value, "", "", w2, w3);
            && KeptParam(p) && s == ValueText(p) + rest
            && ParamValue(Skip(s)) == Taken(Meaning(value), Skip(rest))
            && (value.OpenQuote? ==> rest == "")
            && |rest| <= |s|
  {
    hide Skip, Token, Unquote, QuotedText, QuotedMeaning, Closed, ValueText;
    w2 := SkipSplits(s);
    w3, rest, value := "", s, NoValue;
    var t := Skip(s);
    if StartsWith(t, '=') {
      w3 := SkipSplits(t[1..]);
      var u := Skip(t[1..]);
      assert s == w2 + "=" + w3 + u;
      if StartsWith(u, '"') {
        value, rest := QuotedSplit(w2, w3, u[1..]);
        assert u == "\"" + u[1..];
      } else {
        value, rest := TokenSplit(w2, w3, u);
      }
    } else {
      assert ValueText(Param("k", NoValue, "", "", w2, w3)) == "" by { NoValueText(w2); }
    }
  }

  lemma NoValueText(w2: string)
    ensures ValueText(Param("k", NoValue, "", "", w2, "")) == ""
  {}

  lemma QuotedSplit(w2: string, w3: string, v: string) returns (value: Value, rest: string)
    requires AllSpace(w2) && AllSpace(w3)
    ensures var p := Param("k", value, "", "", w2, w3);
            KeptParam(p) && w2 + "=" + w3 + ("\"" + v) == ValueText(p) + rest
            && Unquote("", v) == Taken(Meaning(value), rest)
    ensures value.OpenQuote? ==> rest == ""
  {
    hide Unquote, QuotedText, QuotedMeaning, Closed;
    var qs, backslash := UnquoteSplits("", v);
    assert "" + QuotedMeaning(qs) == QuotedMeaning(qs);
    if Closed(v) {
      value, rest := QuotedValue(qs), Unquote("", v).rest;
    } else {
      value, rest := OpenQuote(qs, backslash), "";
    }
  }

  lemma TokenSplit(w2: string, w3: string, u: string) returns (value: Value, rest: string)
    requires AllSpace(w2) && AllSpace(w3)
    ensures var p := Param("k", value, "", "", w2, w3);
            KeptParam(p) && w2 + "=" + w3 + u == ValueText(p) + rest && Token(u) == Taken(Meaning(value), rest)
    ensures !value.OpenQuote?
  {
    hide Token;
    TokenSplits(u);
    rest := Token(u).rest;
    value := if Token(u).value == "" then MissingValue else TokenValue(Token(u).value);
  }

  lemma ElementParts(e: Element, x: string)
    ensures ElementText(e) + x == e.before + (e.name + (ParamsText(e.params) + (e.after + x)))
  {
    hide ParamsText;
  }

  /** The first element of a line from which the code takes one. */
  lemma ElementSplit(s: string) returns (e: Element, x: string)
    requires ParseLine(s) != []
    ensures KeptElement(e, x) && s == ElementText(e) + x
  {
    hide Skip, Token, ParseParams, ElementText, ParamsText;
    var before := SkipSplits(s);
    var t := Token(Skip(s));
    TokenSplits(Skip(s));
    var ps, after := ParamsSplit(map["" := t.value], t.rest);
    x := ParseParams(map["" := t.value], t.rest).rest;
    e := Element(t.value, ps, before, after);
    assert s == before + (t.value + (ParamsText(ps) + (after + x)));
    ElementParts(e, x);
  }

  // Main results

  /** Printing any list of extensions and parsing it gives back the list: every name, every parameter with the meaning
      of its value, the last of equal parameters winning. */
  lemma {:induction false} ParsesPrinted(es: seq<Element>)
    requires forall e :: e in es ==> ValidElement(e)
    ensures ParseLine(ListText(es)) == ListMeaning(es)
  {
    hide ParseLine, ElementText, ElementMeaning, ListMeaning, ListText, ValidElement, KeptElement;
    EmptyLine();
    if es != [] {
      var x := if |es| == 1 then "" else "," + ListText(es[1..]);
      assert es[0] in es && es == [es[0]] + es[1..];
      ValidIsKept(es[0], x);
      ElementRead(es[0], x);
      ListCons(es[0], es[1..]);
      ListTextStep(es);
      ParsesPrinted(es[1..]);
      assert |es| > 1 ==> x[1..] == ListText(es[1..]);
      assert |es| == 1 ==> es[1..] == [];
    }
  }

  lemma ListTextStep(es: seq<Element>)
    requires es != []
    ensures ListText(es) == ElementText(es[0]) + if |es| == 1 then "" else "," + ListText(es[1..])
  {
    hide ElementText;
  }

  lemma ValidIsKept(e: Element, x: string)
    requires ValidElement(e) && (x == "" || x[0] == ',')
    ensures KeptElement(e, x)
  {
    hide KeptParam;
    forall i | 0 <= i < |e.params|
      ensures KeptParam(e.params[i]) && !e.params[i].value.OpenQuote?
    {
      assert ValidParam(e.params[i]);
    }
  }

  lemma EmptyLine()
    ensures ParseLine(ListText([])) == [] == ListMeaning([])
  {}

  /** Any string, quoted with a backslash before every quote and backslash. */
  function Quoted(s: string): (qs: seq<QuotedOctet>)
    ensures |qs| == |s| && ValidQuoted(qs)
  {
    seq(|s|, i requires 0 <= i < |s| => if s[i] == '"' || s[i] == '\\' then Escaped(s[i]) else Plain(s[i]))
  }

  lemma {:induction false} MeaningOfQuoted(s: string)
    ensures QuotedMeaning(Quoted(s)) == s
  {
    if s != "" {
      assert Quoted(s)[1..] == Quoted(s[1..]);
      MeaningOfQuoted(s[1..]);
    }
  }

  /** Quoting any string and taking it again gives that string and exactly what follows. */
  lemma QuoteRoundTrip(s: string, rest: string)
    ensures TokenOrQuoted("\"" + (QuotedText(Quoted(s)) + "\"" + rest)) == Taken(s, rest)
  {
    hide Quoted, QuotedText;
    var text := QuotedText(Quoted(s)) + "\"" + rest;
    assert ("\"" + text)[1..] == text;
    MeaningOfQuoted(s);
    UnquoteAll("", Quoted(s), rest);
    assert "" + s == s;
  }

  lemma ListCons(e: Element, es: seq<Element>)
    ensures ListMeaning([e] + es) == [ElementMeaning(e)] + ListMeaning(es)
  {
    hide ElementMeaning;
  }

  /** The text of elements that others follow. */
  function Before(es: seq<Element>): string {
    if es == [] then "" else ElementText(es[0]) + "," + Before(es[1..])
  }

  lemma BeforeCons(es: seq<Element>, more: string)
    requires es != []
    ensures Before(es) + more == ElementText(es[0]) + ("," + (Before(es[1..]) + more))
  {
    hide ElementText;
  }

  /** What comes after well-formed elements on a line does not touch them. */
  lemma {:induction false} KeepsBefore(es: seq<Element>, more: string)
    requires forall e :: e in es ==> ValidElement(e)
    ensures ParseLine(Before(es) + more) == ListMeaning(es) + ParseLine(more)
    decreases |es|
  {
    hide ParseLine, ElementText, ElementMeaning, ListMeaning, ValidElement, Before, KeptElement;
    if es == [] {
      assert Before(es) + more == more && ListMeaning(es) + ParseLine(more) == ParseLine(more) by { NoElements(more); }
    } else {
      var rest := Before(es[1..]) + more;
      assert es[0] in es && es == [es[0]] + es[1..];
      ValidIsKept(es[0], "," + rest);
      ElementRead(es[0], "," + rest);
      KeepsBefore(es[1..], more);
      assert ("," + rest)[1..] == rest;
      BeforeCons(es, more);
      ListCons(es[0], es[1..]);
    }
  }

  lemma NoElements(more: string)
    ensures Before([]) + more == more && ListMeaning([]) + ParseLine(more) == ParseLine(more)
  {
    hide ParseLine;
  }

  /** The line begins with the element e, which the code takes, and goes on with x. */
  predicate ReadsAs(s: string, e: Element, x: string) {
    KeptElement(e, x) && s == ElementText(e) + x
  }

  ghost predicate Readable(s: string) {
    exists e, x :: ReadsAs(s, e, x)
  }

  /** Over every line: the code takes an element from it if and only if the line begins with one of the grammar, or with
      one that differs from it only in values that are missing after the equals sign or have no closing quote. Such a
      value counts as empty; a quote without an end takes up the line. The element is well formed if and only if nothing
      is missing. */
  lemma FirstElement(s: string)
    ensures ParseLine(s) != [] <==> Readable(s)
    ensures forall e, x :: ReadsAs(s, e, x) ==>
              && ParseLine(s) == [ElementMeaning(e)] + (if x == "" then [] else ParseLine(x[1..]))
              && (ValidElement(e) <==> NothingMissing(s))
  {
    hide ParseLine, ElementText, KeptElement, ElementMeaning, ValidElement, NothingMissing;
    if ParseLine(s) != [] {
      var e, x := ElementSplit(s);
      assert ReadsAs(s, e, x);
    }
    forall e, x | ReadsAs(s, e, x)
      ensures ParseLine(s) == [ElementMeaning(e)] + (if x == "" then [] else ParseLine(x[1..]))
      ensures ValidElement(e) <==> NothingMissing(s)
    {
      ElementRead(e, x);
    }
  }

  /** The line is the elements es, each up to its comma, and then a tail that the code takes nothing from. */
  ghost predicate MadeOf(s: string, es: seq<Element>, tail: string)
    decreases |es|
  {
    if es == [] then s == tail && !Readable(tail)
    else exists x :: ReadsAs(s, es[0], x) && if x == "" then |es| == 1 && tail == "" else MadeOf(x[1..], es[1..], tail)
  }

  /** Over every line: the result is the meanings of the elements up to the first that cannot be read, which is dropped
      with everything behind it. */
  lemma {:induction false} LineExact(s: string) returns (es: seq<Element>, tail: string)
    ensures MadeOf(s, es, tail) && ParseLine(s) == ListMeaning(es)
    decreases |s|
  {
    hide ParseLine, ElementText, ElementMeaning, ListMeaning, KeptElement, Readable;
    FirstElement(s);
    if ParseLine(s) == [] {
      es, tail := [], s;
      NoElements(s);
    } else {
      var e, x := FirstRead(s);
      if x == "" {
        es, tail := [], "";
        NoElements("");
      } else {
        es, tail := LineExact(x[1..]);
      }
      ListCons(e, es);
      assert ([e] + es)[1..] == es;
      es := [e] + es;
    }
  }

  lemma FirstRead(s: string) returns (e: Element, x: string)
    requires Readable(s)
    ensures ReadsAs(s, e, x) && |x| <= |s|
  {
    e, x :| ReadsAs(s, e, x);
  }

  /** A malformed element that the code does not take is dropped with what follows it, and nothing else is. */
  lemma DropsFromMalformed(es: seq<Element>, more: string)
    requires (forall e :: e in es ==> ValidElement(e)) && !Readable(more)
    ensures ParseLine(Before(es) + more) == ListMeaning(es)
  {
    hide ParseLine, ElementText;
    FirstElement(more);
    KeepsBefore(es, more);
    assert ListMeaning(es) + [] == ListMeaning(es);
  }

  // Some malformed elements

  lemma NameRead(n: string, rest: string)
    requires IsToken(n) && NoTokenOctet(rest)
    ensures Token(Skip(n + rest)) == Taken(n, rest)
  {
    hide Token, Skip;
    SpaceThenToken("", n, rest);
    assert "" + n + rest == n + rest;
  }

  /** Dropped: nothing before the comma. */
  lemma DropsEmpty(w: string, rest: string)
    requires AllSpace(w)
    ensures !Readable(w + ("," + rest))
  {
    hide ParseParams;
    SkipThrough(w, "," + rest);
    assert Skip("," + rest) == "," + rest;
    TokenAll("", "," + rest);
    assert "" + ("," + rest) == "," + rest;
    hide Skip, Token;
    FirstElement(w + ("," + rest));
  }

  /** Dropped: something else than a separator behind the name of an extension, for example a second name, or an equals
      sign and a value. */
  lemma DropsBehindName(n: string, w: string, x: string)
    requires IsToken(n) && AllSpace(w) && x != "" && !IsSpace(x[0]) && x[0] != ',' && x[0] != ';'
    requires w == "" ==> !IsTokenOctet(x[0])
    ensures !Readable(n + (w + x))
  {
    hide Token;
    SkipThrough(w, x);
    assert Skip(x) == x;
    if w != "" {
      assert w[0] in w;
    }
    NameRead(n, w + x);
    FirstElement(n + (w + x));
  }

  /** Dropped: a parameter without a name. */
  lemma DropsNameless(n: string, w: string, x: string)
    requires IsToken(n) && AllSpace(w) && NoTokenOctet(x) && (x != "" ==> !IsSpace(x[0]))
    ensures !Readable(n + ([';'] + (w + x)))
  {
    hide Token, Skip, ParseParams;
    var rest := [';'] + (w + x);
    Nameless(map["" := n], w, x);
    NameRead(n, rest);
    FirstElement(n + rest);
  }

  lemma Nameless(ext: Extension, w: string, x: string)
    requires AllSpace(w) && NoTokenOctet(x) && (x != "" ==> !IsSpace(x[0]))
    ensures ParseParams(ext, [';'] + (w + x)) == Malformed
  {
    hide Skip, Token, ParseParams, AllSpace, NoTokenOctet, IsSpace;
    var rest := [';'] + (w + x);
    EmptySpace();
    SpaceThen("", ';', w + x);
    assert "" + [';'] + (w + x) == rest && rest[1..] == w + x;
    SkipThrough(w, x);
    NothingToTake(x);
    NamelessStep(ext, rest);
  }

  lemma EmptySpace()
    ensures AllSpace("")
  {}

  lemma NothingToTake(x: string)
    requires NoTokenOctet(x) && (x != "" ==> !IsSpace(x[0]))
    ensures Skip(x) == x && Token(x) == Taken("", x)
  {
    TokenAll("", x);
    assert "" + x == x;
  }

  lemma NamelessStep(ext: Extension, s: string)
    requires StartsWith(Skip(s), ';') && Token(Skip(Skip(s)[1..])).value == ""
    ensures ParseParams(ext, s) == Malformed
  {
    hide Skip, Token, ParamValue;
  }

  /** Kept: an equals sign with nothing after it. */
  lemma KeepsWithoutValue(n: string, k: string)
    requires IsToken(n) && IsToken(k)
    ensures var s := n + (";" + (k + "="));
            ParseLine(s) == [map["" := n, k := ""]] && !NothingMissing(s)
  {
    hide ParseLine, NothingMissing;
    var p := Param(k, MissingValue, "", "", "", "");
    OneParam(n, p);
    assert ValueText(p) == "=";
  }

  /** Kept: a quoted string without an end. Everything behind the quote is lost, other extensions too. */
  lemma KeepsWithoutQuote(n: string, k: string, t: string)
    requires IsToken(n) && IsToken(k) && !Closed(t)
    ensures var s := n + (";" + (k + ("=\"" + t)));
            ParseLine(s) == [map["" := n, k := ""]] && !NothingMissing(s)
  {
    hide QuotedText, Closed, ParseLine, NothingMissing;
    var qs, backslash := UnquoteSplits("", t);
    var p := Param(k, OpenQuote(qs, backslash), "", "", "", "");
    OneParam(n, p);
    assert ValueText(p) == "=\"" + t;
  }

  lemma OneParam(n: string, p: Param)
    requires IsToken(n) && KeptParam(p) && p.w0 == "" && p.w1 == ""
    ensures var s := n + (";" + (p.name + ValueText(p)));
            ParseLine(s) == [map["" := n, p.name := Meaning(p.value)]] && NothingMissing(s) == ValidParam(p)
  {
    hide ParseLine, ValueText, NothingMissing, ValidParam, KeptParam;
    var e := Element(n, [p], "", "");
    assert ParamsText([p]) == ParamText(p) + ParamsText([]) == ";" + (p.name + ValueText(p));
    assert ElementText(e) + "" == n + (";" + (p.name + ValueText(p)));
    assert ParamsMeaning(map["" := n], [p]) == map["" := n][p.name := Meaning(p.value)] by {
      assert ParamsMeaning(map["" := n][p.name := Meaning(p.value)], []) == map["" := n][p.name := Meaning(p.value)];
    }
    ElementRead(e, "");
  }

  /** The same for any text without a quote. */
  lemma KeepsWithoutAnyQuote(n: string, k: string, t: string)
    requires IsToken(n) && IsToken(k) && '"' !in t
    ensures ParseLine(n + (";" + (k + ("=\"" + t)))) == [map["" := n, k := ""]]
  {
    hide ParseLine, IsToken, NothingMissing;
    NotClosed(t);
    KeepsWithoutQuote(n, k, t);
  }

  /** Text without a quote does not close a quoted string. */
  lemma {:induction false} NotClosed(t: string)
    requires '"' !in t
    ensures !Closed(t)
    decreases |t|
  {
    if t != "" {
      NotClosed(t[1..]);
      if |t| > 1 {
        NotClosed(t[2..]);
      }
    }
  }

  /** Nor do lines touch each other. */
  lemma {:induction false} LinesIndependent(a: seq<string>, b: seq<string>)
    ensures ParseLines(a + b) == ParseLines(a) + ParseLines(b)
  {
    hide ParseLine;
    if a == [] {
      assert a + b == b;
    } else {
      assert (a + b)[1..] == a[1..] + b;
      LinesIndependent(a[1..], b);
    }
  }
}
