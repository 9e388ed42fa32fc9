/**
 * The grammar of intent texts: exactly which texts the session manager's parser accepts, and as
 * what. Line breaks may be a line feed or a carriage return with one, and the last may be missing.
 */
module TextExact {
  import opened Common
  import opened KeyValue
  import opened Amounts
  import opened IntentTypes
  import opened IntentText
  import opened IntentRoundTrip

  // ---------- lines ----------

  predicate IsBreak(nl: string) { nl == "\n" || nl == "\r\n" }

  /** A line break, or the end of the text. */
  predicate Ends(nl: string, rest: string) { IsBreak(nl) || (nl == "" && rest == "") }

  /** `head`, then a line's worth of text, its end, and what follows. */
  predicate LineAt(s: string, head: string, text: string, nl: string, rest: string)
  {
    s == head + text + nl + rest && NoBreak(text) && Ends(nl, rest)
  }

  ghost predicate IsLine(s: string, head: string, text: string, rest: string)
  {
    exists nl :: LineAt(s, head, text, nl, rest)
  }

  /** The line reader behind a one-character head. */
  function AfterHead(head: string, s: string): Parse<string>
  {
    var (_, b) :- Tag(head, s);
    var (text, b) :- NotLineEnding(b);
    var (_, b) :- LineEndingOrEof(b);
    Accept(text, b)
  }

  /** A line's end, split off. */
  lemma EndIsRead(nl: string, rest: string)
    requires Ends(nl, rest)
    ensures LineEndingOrEof(nl + rest) == Accept(nl, rest)
    ensures nl + rest == "" || !InLine((nl + rest)[0])
    ensures nl + rest != "" ==> LineEnding(nl + rest).Accept?
  {
    if nl == "" {
      assert nl + rest == "";
    } else {
      OneBreak(nl + rest, nl, rest);
    }
  }

  lemma ReadIsEnd(c: string)
    requires LineEndingOrEof(c).Accept?
    ensures var p := LineEndingOrEof(c); Ends(p.value, p.rest) && c == p.value + p.rest
  {
  }

  lemma TextIsRead(text: string, c: string)
    requires NoBreak(text) && (c == "" || !InLine(c[0])) && (c != "" ==> LineEnding(c).Accept?)
    ensures NotLineEnding(text + c) == Accept(text, c)
  {
    SpanOfConcat(text, c, InLine);
    assert (text + c)[..|text|] == text && (text + c)[|text|..] == c;
  }

  lemma LineIsRead(head: string, text: string, nl: string, rest: string)
    requires NoBreak(text) && Ends(nl, rest)
    ensures AfterHead(head, head + text + nl + rest) == Accept(text, rest)
  {
    EndIsRead(nl, rest);
    TextIsRead(text, nl + rest);
    TagInverse(head, text + (nl + rest));
    Regroup(head, text, nl, rest);
  }

  lemma Regroup(a: string, b: string, c: string, d: string)
    ensures a + b + c + d == a + (b + (c + d))
  {
  }

  lemma ReadIsText(b: string)
    requires NotLineEnding(b).Accept?
    ensures var p := NotLineEnding(b); NoBreak(p.value) && b == p.value + p.rest
  {
  }

  lemma ReadIsLine(head: string, s: string) returns (nl: string)
    requires AfterHead(head, s).Accept?
    ensures LineAt(s, head, AfterHead(head, s).value, nl, AfterHead(head, s).rest)
  {
    var b := Tag(head, s).rest;
    assert s == head + b;
    ReadIsText(b);
    var p := NotLineEnding(b);
    ReadIsEnd(p.rest);
    nl := LineEndingOrEof(p.rest).value;
    Regroup(head, p.value, nl, LineEndingOrEof(p.rest).rest);
  }

  lemma LinesExactly(head: string, s: string, text: string, rest: string)
    ensures AfterHead(head, s) == Accept(text, rest) <==> IsLine(s, head, text, rest)
  {
    if AfterHead(head, s) == Accept(text, rest) {
      var nl := ReadIsLine(head, s);
    }
    if nl :| LineAt(s, head, text, nl, rest) {
      LineIsRead(head, text, nl, rest);
    }
  }

  // ---------- values ----------

  /** `value` is a block of dash lines, and no dash line follows it. */
  ghost predicate IsBlock(value: string, rest: string)
    decreases |value|
  {
    if value == "" then forall text, after :: !IsLine(rest, "-", text, after)
    else exists text, more :: |more| < |value| && IsLine(value + rest, "-", text, more + rest) && IsBlock(more, rest)
  }

  lemma DashLineIs(s: string)
    ensures DashLine(s) == AfterHead("-", s)
  {
  }

  lemma NoBlock(rest: string)
    ensures DashBlock(rest) == 0 <==> IsBlock("", rest)
  {
    DashLineIs(rest);
    if DashLine(rest).Accept? {
      LinesExactly("-", rest, DashLine(rest).value, DashLine(rest).rest);
    }
    forall text, after ensures AfterHead("-", rest) == Accept(text, after) <==> IsLine(rest, "-", text, after)
    {
      LinesExactly("-", rest, text, after);
    }
  }

  /** A block that is read starts with a line that is read, and goes on with the block behind it. */
  lemma BlockSplits(value: string, rest: string) returns (text: string, more: string)
    requires value != "" && DashBlock(value + rest) == |value|
    ensures |more| < |value| && IsLine(value + rest, "-", text, more + rest) && DashBlock(more + rest) == |more|
  {
    var s := value + rest;
    var line := DashLine(s);
    text, more := line.value, value[|s| - |line.rest|..];
    RestIsSuffix(s);
    assert line.rest == more + rest;
    DashLineIs(s);
    LinesExactly("-", s, text, line.rest);
  }

  lemma {:induction false} BlockExactly(value: string, rest: string)
    ensures DashBlock(value + rest) == |value| <==> IsBlock(value, rest)
    decreases |value|
  {
    if value == "" {
      assert value + rest == rest;
      NoBlock(rest);
    } else {
      if DashBlock(value + rest) == |value| {
        var text, more := BlockSplits(value, rest);
        BlockExactly(more, rest);
      }
      if IsBlock(value, rest) {
        var text, more :| |more| < |value| && IsLine(value + rest, "-", text, more + rest) && IsBlock(more, rest);
        DashLineIs(value + rest);
        LinesExactly("-", value + rest, text, more + rest);
        BlockExactly(more, rest);
      }
    }
  }

  lemma RestIsSuffix(s: string)
    requires DashLine(s).Accept?
    ensures DashLine(s).rest == s[|s| - |DashLine(s).rest|..]
  {
    var nl := ReadIsLine("-", s);
    var line := AfterHead("-", s);
    assert s == ("-" + line.value + nl) + line.rest;
  }

  /** What may follow a colon: a space and the rest of the line; a line break and dash lines; nothing at all. */
  ghost predicate IsValue(s: string, value: string, rest: string)
  {
    || IsLine(s, " ", value, rest)
    || (exists nl :: BlockAfter(s, nl, value, rest))
    || (s == "" && value == "" && rest == "")
  }

  lemma ValuesExactly(s: string, value: string, rest: string)
    ensures ValuePart(s) == Accept(value, rest) <==> IsValue(s, value, rest)
  {
    assert Inline(s) == AfterHead(" ", s);
    LinesExactly(" ", s, value, rest);
    if Inline(s).Reject? && LineEnding(s).Accept? {
      BreaksExactly(s, value, rest);
    } else if Inline(s).Accept? {
      assert s[0] == ' ';
    }
  }

  /** A line break, then a block. */
  ghost predicate BlockAfter(s: string, nl: string, value: string, rest: string)
  {
    IsBreak(nl) && s == nl + (value + rest) && IsBlock(value, rest)
  }

  lemma OneBreak(s: string, nl: string, b: string)
    requires IsBreak(nl) && s == nl + b
    ensures LineEnding(s) == Accept(nl, b)
  {
    assert s[0] == nl[0];
    assert s[|nl|..] == b;
  }

  lemma BlockTaken(b: string, value: string, rest: string)
    ensures b[..DashBlock(b)] == value && b[DashBlock(b)..] == rest <==> b == value + rest && IsBlock(value, rest)
  {
    assert b == b[..DashBlock(b)] + b[DashBlock(b)..];
    if b == value + rest {
      BlockExactly(value, rest);
      assert b[..|value|] == value && b[|value|..] == rest;
    }
  }

  lemma BreaksExactly(s: string, value: string, rest: string)
    requires LineEnding(s).Accept?
    ensures var b := LineEnding(s).rest;
            (b[..DashBlock(b)] == value && b[DashBlock(b)..] == rest) <==> exists nl :: BlockAfter(s, nl, value, rest)
  {
    var nl, b := LineEnding(s).value, LineEnding(s).rest;
    assert s == nl + b;
    BlockTaken(b, value, rest);
    if b == value + rest && IsBlock(value, rest) {
      assert BlockAfter(s, nl, value, rest);
    }
    if other :| BlockAfter(s, other, value, rest) {
      OneBreak(s, other, value + rest);
    }
  }

  // ---------- keyed lines ----------

  /** `key`, a colon and a value. */
  ghost predicate IsField(s: string, key: string, value: string, rest: string)
  {
    exists after :: s == key + (":" + after) && IsValue(after, value, rest)
  }

  /** A digit, a letter or an underscore. */
  predicate KeyChar(c: char)
  {
    var n := c as int;
    48 <= n <= 57 || 65 <= n <= 90 || 97 <= n <= 122 || n == 95
  }

  /** A digit, a letter or a dot. */
  predicate NameChar(c: char)
  {
    var n := c as int;
    48 <= n <= 57 || 65 <= n <= 90 || 97 <= n <= 122 || n == 46
  }

  predicate IsKey(p: char -> bool, key: string) { key != "" && forall i :: 0 <= i < |key| ==> p(key[i]) }

  lemma TaggedExactly(key: string, s: string, value: string, rest: string)
    ensures TaggedValue(key, s) == Accept(value, rest) <==> IsField(s, key, value, rest)
  {
    if TaggedValue(key, s) == Accept(value, rest) {
      var after := s[|key|..][1..];
      assert s == key + (":" + after);
      ValuesExactly(after, value, rest);
    }
    if after :| s == key + (":" + after) && IsValue(after, value, rest) {
      ValuesExactly(after, value, rest);
      ReadsTag(key);
      PairInverse(TagParser(key), key, key, after);
    }
  }

  lemma PairIsField(p: char -> bool, s: string)
    requires KeyValuePair((t: string) => Take1(p, t), s).Accept?
    ensures var r := KeyValuePair((t: string) => Take1(p, t), s);
            IsKey(p, r.value.0) && IsField(s, r.value.0, r.value.1, r.rest)
  {
    var r := KeyValuePair((t: string) => Take1(p, t), s);
    var n := SpanLength(s, p);
    var after := s[n..][1..];
    assert s == s[..n] + (":" + after);
    ValuesExactly(after, r.value.1, r.rest);
  }

  lemma FieldIsPair(p: char -> bool, s: string, key: string, value: string, rest: string)
    requires !p(':') && IsKey(p, key) && IsField(s, key, value, rest)
    ensures KeyValuePair((t: string) => Take1(p, t), s) == Accept((key, value), rest)
  {
    var after :| s == key + (":" + after) && IsValue(after, value, rest);
    ValuesExactly(after, value, rest);
    ReadsTake1(p, key);
    PairInverse((t: string) => Take1(p, t), key, key, after);
  }

  lemma PairsExactly(p: char -> bool, s: string, key: string, value: string, rest: string)
    requires !p(':')
    ensures KeyValuePair((t: string) => Take1(p, t), s) == Accept((key, value), rest) <==>
            IsKey(p, key) && IsField(s, key, value, rest)
  {
    if KeyValuePair((t: string) => Take1(p, t), s) == Accept((key, value), rest) {
      PairIsField(p, s);
    }
    if IsKey(p, key) && IsField(s, key, value, rest) {
      FieldIsPair(p, s, key, value, rest);
    }
  }

  // ---------- fields, extras, limits ----------

  /** The six leading fields, in their order. */
  ghost predicate IsBody(s: string, body: Body, rest: string)
  {
    exists s1, s2, s3, s4, s5 ::
      && IsField(s, "version", body.version, s1) && IsField(s1, "chain_id", body.chainId, s2)
      && IsField(s2, "domain", body.domain, s3) && IsField(s3, "expires", body.expires, s4)
      && IsField(s4, "session_key", body.sessionKey, s5) && IsField(s5, "tokens", body.tokens, rest)
  }

  /** Nothing but keyed lines, with keys of letters, digits and underscores. */
  ghost predicate IsExtras(s: string, fields: seq<Field>)
    decreases |fields|
  {
    if fields == [] then s == ""
    else
      && IsKey(KeyChar, fields[0].key)
      && exists rest :: IsField(s, fields[0].key, fields[0].value, rest) && IsExtras(rest, fields[1..])
  }

  lemma AnyKeyExactly(s: string, key: string, value: string, rest: string)
    ensures KeyValuePair(AnyKey, s) == Accept((key, value), rest) <==>
            IsKey(KeyChar, key) && IsField(s, key, value, rest)
  {
    PairsExactly(InKey, s, key, value, rest);
    assert IsKey(InKey, key) <==> IsKey(KeyChar, key);
    assert AnyKey(s) == ((t: string) => Take1(InKey, t))(s);
  }

  lemma {:induction false} ExtrasExactly(s: string, fields: seq<Field>)
    ensures ParseExtras(s) == (fields, "") <==> IsExtras(s, fields)
    decreases |fields|
  {
    var pair := KeyValuePair(AnyKey, s);
    if fields == [] {
      assert s == "" ==> pair.Reject?;
    } else {
      var f := fields[0];
      assert fields == [f] + fields[1..];
      if pair.Accept? {
        AnyKeyExactly(s, pair.value.0, pair.value.1, pair.rest);
        ExtrasExactly(pair.rest, fields[1..]);
      }
      if IsExtras(s, fields) {
        var rest :| IsField(s, f.key, f.value, rest) && IsExtras(rest, fields[1..]);
        AnyKeyExactly(s, f.key, f.value, rest);
      }
    }
  }

  lemma BodiesExactly(s: string, body: Body, rest: string)
    ensures ParseBody(s) == Accept(body, rest) <==> IsBody(s, body, rest)
  {
    if ParseBody(s) == Accept(body, rest) {
      var s1 := TaggedValue("version", s).rest;
      var s2 := TaggedValue("chain_id", s1).rest;
      var s3 := TaggedValue("domain", s2).rest;
      var s4 := TaggedValue("expires", s3).rest;
      var s5 := TaggedValue("session_key", s4).rest;
      BodyChain(s, body, s1, s2, s3, s4, s5, rest);
    }
    if IsBody(s, body, rest) {
      var s1, s2, s3, s4, s5 :|
        && IsField(s, "version", body.version, s1) && IsField(s1, "chain_id", body.chainId, s2)
        && IsField(s2, "domain", body.domain, s3) && IsField(s3, "expires", body.expires, s4)
        && IsField(s4, "session_key", body.sessionKey, s5) && IsField(s5, "tokens", body.tokens, rest);
      BodyChain(s, body, s1, s2, s3, s4, s5, rest);
    }
  }

  lemma BodyChain(s: string, body: Body, s1: string, s2: string, s3: string, s4: string, s5: string, rest: string)
    ensures TaggedValue("version", s) == Accept(body.version, s1) <==> IsField(s, "version", body.version, s1)
    ensures TaggedValue("chain_id", s1) == Accept(body.chainId, s2) <==> IsField(s1, "chain_id", body.chainId, s2)
    ensures TaggedValue("domain", s2) == Accept(body.domain, s3) <==> IsField(s2, "domain", body.domain, s3)
    ensures TaggedValue("expires", s3) == Accept(body.expires, s4) <==> IsField(s3, "expires", body.expires, s4)
    ensures TaggedValue("session_key", s4) == Accept(body.sessionKey, s5) <==>
            IsField(s4, "session_key", body.sessionKey, s5)
    ensures TaggedValue("tokens", s5) == Accept(body.tokens, rest) <==> IsField(s5, "tokens", body.tokens, rest)
  {
    TaggedExactly("version", s, body.version, s1);
    TaggedExactly("chain_id", s1, body.chainId, s2);
    TaggedExactly("domain", s2, body.domain, s3);
    TaggedExactly("expires", s3, body.expires, s4);
    TaggedExactly("session_key", s4, body.sessionKey, s5);
    TaggedExactly("tokens", s5, body.tokens, rest);
  }

  // ---------- the typed fields ----------

  predicate IsNumber(s: string, n: byte) { s != "" && AllDigits(s) && Value(s) == n }

  /** Two numbers up to 255 with a dot between them; whatever follows the second is ignored. */
  predicate VersionParts(s: string, v: Version, major: string, minor: string, tail: string)
  {
    && s == major + ("." + (minor + tail)) && IsNumber(major, v.major) && IsNumber(minor, v.minor)
    && (tail == "" || !IsDigit(tail[0]))
  }

  ghost predicate IsVersion(s: string, v: Version)
  {
    exists major, minor, tail :: VersionParts(s, v, major, minor, tail)
  }

  lemma NumberRead(digits: string, n: byte, tail: string)
    requires IsNumber(digits, n) && (tail == "" || !IsDigit(tail[0]))
    ensures IntegerU8(digits + tail) == Accept(n, tail)
  {
    SpanOfConcat(digits, tail, IsDigit);
    assert (digits + tail)[..|digits|] == digits && (digits + tail)[|digits|..] == tail;
  }

  lemma NumberIsRead(s: string)
    requires IntegerU8(s).Accept?
    ensures var p := IntegerU8(s);
            exists digits :: s == digits + p.rest && IsNumber(digits, p.value) && (p.rest == "" || !IsDigit(p.rest[0]))
  {
    var n := SpanLength(s, IsDigit);
    assert s == s[..n] + s[n..] && IsNumber(s[..n], IntegerU8(s).value);
  }

  lemma VersionIsRead(s: string, v: Version)
    requires ParseVersion(s) == Some(v)
    ensures IsVersion(s, v)
  {
    var p := IntegerU8(s);
    NumberIsRead(s);
    var major :| s == major + p.rest && IsNumber(major, v.major);
    var b := Tag(".", p.rest).rest;
    assert p.rest == "." + b;
    NumberIsRead(b);
    var q := IntegerU8(b);
    var minor :| b == minor + q.rest && IsNumber(minor, v.minor) && (q.rest == "" || !IsDigit(q.rest[0]));
    assert VersionParts(s, v, major, minor, q.rest);
  }

  lemma VersionsExactly(s: string, v: Version)
    ensures ParseVersion(s) == Some(v) <==> IsVersion(s, v)
  {
    if ParseVersion(s) == Some(v) {
      VersionIsRead(s, v);
    }
    if major, minor, tail :| VersionParts(s, v, major, minor, tail) {
      NumberRead(major, v.major, "." + (minor + tail));
      TagInverse(".", minor + tail);
      NumberRead(minor, v.minor, tail);
    }
  }

  /** A dash, a name of letters, digits and dots, a colon and an amount. */
  ghost predicate IsLimit(codec: Codec, s: string, limit: TokenLimit, rest: string)
  {
    exists name, after ::
      && s == "-" + after && IsKey(NameChar, name) && IsField(after, name, limit.amount, rest)
      && limit.token == (if codec.key(name).Some? then Mint(codec.key(name).value) else Symbol(name))
  }

  /** The limits the text begins with; what follows the last is ignored. */
  ghost predicate IsLimits(codec: Codec, s: string, limits: seq<TokenLimit>)
    decreases |limits|
  {
    if limits == [] then forall limit, rest :: !IsLimit(codec, s, limit, rest)
    else exists rest :: IsLimit(codec, s, limits[0], rest) && IsLimits(codec, rest, limits[1..])
  }

  lemma LimitExactly(codec: Codec, s: string, limit: TokenLimit, rest: string)
    ensures ParseLimit(codec, s) == Accept(limit, rest) <==> IsLimit(codec, s, limit, rest)
  {
    if ParseLimit(codec, s) == Accept(limit, rest) {
      var b := s[1..];
      var pair := KeyValuePair(Name, b);
      NameExactly(b, pair.value.0, pair.value.1, pair.rest);
      assert s == "-" + b;
    }
    if IsLimit(codec, s, limit, rest) {
      var name, after :|
        && s == "-" + after && IsKey(NameChar, name) && IsField(after, name, limit.amount, rest)
        && limit.token == (if codec.key(name).Some? then Mint(codec.key(name).value) else Symbol(name));
      NameExactly(after, name, limit.amount, rest);
      TagInverse("-", after);
    }
  }

  lemma NameExactly(s: string, key: string, value: string, rest: string)
    ensures KeyValuePair(Name, s) == Accept((key, value), rest) <==>
            IsKey(NameChar, key) && IsField(s, key, value, rest)
  {
    PairsExactly(InName, s, key, value, rest);
    assert IsKey(InName, key) <==> IsKey(NameChar, key);
    assert Name(s) == ((t: string) => Take1(InName, t))(s);
  }

  lemma {:induction false} LimitsExactly(codec: Codec, s: string, limits: seq<TokenLimit>)
    ensures ParseLimits(codec, s) == limits <==> IsLimits(codec, s, limits)
    decreases |limits|
  {
    var first := ParseLimit(codec, s);
    if limits == [] {
      forall limit, rest ensures first == Accept(limit, rest) <==> IsLimit(codec, s, limit, rest)
      {
        LimitExactly(codec, s, limit, rest);
      }
    } else {
      assert limits == [limits[0]] + limits[1..];
      if first.Accept? {
        LimitExactly(codec, s, first.value, first.rest);
        LimitsExactly(codec, first.rest, limits[1..]);
      }
      if IsLimits(codec, s, limits) {
        var rest :| IsLimit(codec, s, limits[0], rest) && IsLimits(codec, rest, limits[1..]);
        LimitExactly(codec, s, limits[0], rest);
      }
    }
  }

  /** One of the two fixed sentences, or at least one limit. */
  ghost predicate IsTokens(codec: Codec, s: string, tokens: TokenLimits)
  {
    match tokens
    case AnyTokens => s == "this app may spend any amount of any token"
    case SpecificLimits(limits) =>
      if s == "this app may not spend any tokens" then limits == []
      else s != "this app may spend any amount of any token" && limits != [] && IsLimits(codec, s, limits)
  }

  lemma TokensExactly(codec: Codec, s: string, tokens: TokenLimits)
    ensures ParseTokens(codec, s) == Some(tokens) <==> IsTokens(codec, s, tokens)
  {
    if tokens.SpecificLimits? {
      LimitsExactly(codec, s, tokens.limits);
    }
  }

  // ---------- what the SDK lets through ----------

  /** Lower-case letters, digits and underscores; no underscore at the end or next to another. */
  predicate Separated(s: string)
  {
    && (forall i :: 0 <= i < |s| ==> 'a' <= s[i] <= 'z' || '0' <= s[i] <= '9' || s[i] == '_')
    && (s != "" ==> s[|s| - 1] != '_')
    && forall i :: 0 <= i < |s| - 1 ==> !(s[i] == '_' && s[i + 1] == '_')
  }

  lemma SeparatedBehind(s: string, n: nat)
    requires 0 < n < |s| && s[0] == '_' && s[n] == '_'
    requires forall i :: 1 <= i < n ==> 'a' <= s[i] <= 'z' || '0' <= s[i] <= '9'
    ensures Separated(s) <==> n > 1 && Separated(s[n..])
  {
    var t := s[n..];
    assert forall i :: n <= i < |s| ==> s[i] == t[i - n];
    assert forall i :: 0 <= i < |t| ==> t[i] == s[n + i];
    assert Separated(s) ==> !(s[0] == '_' && s[0 + 1] == '_');
  }

  /** `s` begins with an underscore and exactly `n` lower-case letters and digits. */
  predicate BeginsGroup(s: string, n: nat)
  {
    && n < |s| && s[0] == '_' && (forall i :: 1 <= i <= n ==> 'a' <= s[i] <= 'z' || '0' <= s[i] <= '9')
    && (1 + n < |s| ==> !('a' <= s[1 + n] <= 'z' || '0' <= s[1 + n] <= '9'))
  }

  lemma GroupBegins(s: string) returns (n: nat)
    requires s != "" && s[0] == '_'
    ensures BeginsGroup(s, n) && n == SpanLength(s[1..], IsLowerOrDigit)
  {
    n := SpanLength(s[1..], IsLowerOrDigit);
    assert forall i :: 1 <= i < |s| ==> s[i] == s[1..][i - 1];
  }

  lemma LastGroup(s: string, n: nat)
    requires BeginsGroup(s, n) && 1 + n == |s|
    ensures Separated(s) <==> n > 0
  {
  }

  lemma BrokenGroup(s: string, n: nat)
    requires BeginsGroup(s, n) && 1 + n < |s| && s[1 + n] != '_'
    ensures !Separated(s)
  {
  }

  lemma {:induction false} GroupsExactly(s: string)
    ensures SnakeGroups(s) <==> s == "" || (s[0] == '_' && Separated(s))
    decreases |s|
  {
    if s != "" && s[0] == '_' {
      var n := GroupBegins(s);
      GroupsExactly(s[1 + n..]);
      if 1 + n == |s| {
        LastGroup(s, n);
      } else if s[1 + n] == '_' {
        SeparatedBehind(s, 1 + n);
      } else {
        BrokenGroup(s, n);
      }
    }
  }

  /** A first word of letters alone, up to `n`. */
  predicate FirstWord(s: string, n: nat)
  {
    0 < n <= |s| && (forall i :: 0 <= i < n ==> 'a' <= s[i] <= 'z') && (n == |s| || s[n] == '_')
  }

  /** A key of the SDK's extras: separated words, the first of them of letters alone. */
  lemma SnakeCaseExactly(s: string)
    ensures SnakeCase(s) <==> Separated(s) && exists n :: FirstWord(s, n)
  {
    var n := SpanLength(s, IsLower);
    GroupsExactly(s[n..]);
    if FirstWord(s, n) {
      SeparatedFrom(s, n);
    }
    if k: nat :| FirstWord(s, k) {
      assert forall i :: 0 <= i < k ==> IsLower(s[i]);
      assert n == k;
    }
  }

  lemma SeparatedFrom(s: string, n: nat)
    requires 0 < n <= |s| && forall i :: 0 <= i < n ==> 'a' <= s[i] <= 'z'
    ensures Separated(s) <==> Separated(s[n..])
  {
    var t := s[n..];
    assert forall i :: n <= i < |s| ==> s[i] == t[i - n];
    assert forall i :: 0 <= i < |t| ==> t[i] == s[n + i];
  }

  // ---------- whole texts ----------

  /** The fields say what the message holds; its major version is the current one. */
  ghost predicate Means(codec: Codec, body: Body, m: Message)
  {
    && IsVersion(body.version, m.version) && m.version.major == 0
    && m.chainId == body.chainId && m.domain == body.domain
    && codec.time(body.expires) == Some(m.expires) && codec.key(body.sessionKey) == Some(m.sessionKey)
    && IsTokens(codec, body.tokens, m.tokens)
  }

  lemma MeaningExactly(codec: Codec, body: Body, extra: map<string, string>, m: Message)
    ensures Assemble(codec, body, extra) == Some(m) <==> Means(codec, body, m) && m.extra == extra
  {
    VersionsExactly(body.version, m.version);
    TokensExactly(codec, body.tokens, m.tokens);
  }

  /** The six fields, then extras to the end, without reserved or repeated keys. */
  ghost predicate IsFields(codec: Codec, text: string, m: Message)
  {
    exists body, tail, extras ::
      && IsBody(text, body, tail) && IsExtras(tail, extras) && Unreserved(extras) && DistinctKeys(extras)
      && Means(codec, body, m) && m.extra == ExtraMap(extras)
  }

  lemma FieldsExactly(codec: Codec, text: string, m: Message)
    ensures ParseFields(codec, text) == Some(m) <==> IsFields(codec, text, m)
  {
    if ParseFields(codec, text) == Some(m) {
      var body, tail := ParseBody(text).value, ParseBody(text).rest;
      var extras := ParseExtras(tail).0;
      BodiesExactly(text, body, tail);
      ExtrasExactly(tail, extras);
      FoldsFromEmpty(extras);
      MeaningExactly(codec, body, ExtraMap(extras), m);
    }
    if IsFields(codec, text, m) {
      var body, tail, extras :|
        && IsBody(text, body, tail) && IsExtras(tail, extras) && Unreserved(extras) && DistinctKeys(extras)
        && Means(codec, body, m) && m.extra == ExtraMap(extras);
      BodiesExactly(text, body, tail);
      ExtrasExactly(tail, extras);
      FoldAdds(extras, map[]);
      FoldsFromEmpty(extras);
      MeaningExactly(codec, body, ExtraMap(extras), m);
    }
  }

  /** The text behind a prefix and a line break. */
  function TextBehind(prefix: string, s: string): Option<string>
  {
    var p := Tag(prefix, s);
    if p.Reject? || LineEnding(p.rest).Reject? then None else Some(LineEnding(p.rest).rest)
  }

  lemma BehindExactly(prefix: string, s: string, text: string)
    ensures TextBehind(prefix, s) == Some(text) <==> exists nl :: IsBreak(nl) && s == prefix + (nl + text)
  {
    if TextBehind(prefix, s) == Some(text) {
      var b := Tag(prefix, s).rest;
      assert s == prefix + b && b == LineEnding(b).value + text;
    }
    if nl :| IsBreak(nl) && s == prefix + (nl + text) {
      TagInverse(prefix, nl + text);
      OneBreak(nl + text, nl, text);
    }
  }

  /** Exactly the texts of that grammar parse, each to the message its fields mean. */
  lemma TextsExactly(codec: Codec, s: string, m: Message)
    ensures ParseMessage(codec, s) == Some(m) <==>
            exists nl, text :: IsBreak(nl) && s == PREFIX + (nl + text) && IsFields(codec, text, m)
  {
    var behind := TextBehind(PREFIX, s);
    if behind.Some? {
      BehindExactly(PREFIX, s, behind.value);
      FieldsExactly(codec, behind.value, m);
    }
    if nl, text :| IsBreak(nl) && s == PREFIX + (nl + text) && IsFields(codec, text, m) {
      BehindExactly(PREFIX, s, text);
    }
  }
}
