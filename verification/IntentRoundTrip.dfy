/** Parsing undoes printing for session intents, and exactly for which extras and token symbols it does not. */
module IntentRoundTrip {
  import opened Common
  import opened KeyValue
  import opened Amounts
  import opened IntentText
  import opened IntentTypes
  import Sessions

  // ---------- the leading fields ----------

  /** Fields one per line, each line ended, then `tail`. */
  function Lines(fields: seq<Field>, tail: string): string
  {
    if fields == [] then tail else PrintField(fields[0]) + ("\n" + Lines(fields[1..], tail))
  }

  lemma {:induction false} SerializedLines(fields: seq<Field>, tail: string)
    requires fields != []
    ensures SerializeKV(fields) + "\n" + tail == Lines(fields, tail)
  {
    if |fields| == 1 {
      assert Lines(fields[1..], tail) == tail;
      assert PrintField(fields[0]) + "\n" + tail == PrintField(fields[0]) + ("\n" + tail);
    } else {
      SerializedLines(fields[1..], tail);
      var first, more := PrintField(fields[0]), SerializeKV(fields[1..]);
      assert first + "\n" + more + "\n" + tail == first + ("\n" + (more + "\n" + tail));
    }
  }

  lemma TaggedInverse(key: string, value: string, rest: string)
    requires NoBreak(value)
    ensures TaggedValue(key, PrintField(Field(key, value)) + ("\n" + rest)) == Accept(value, rest)
  {
    ReadsTag(key);
    FieldInverse(TagParser(key), key, key, value, "\n" + rest, rest);
  }

  lemma IntegerInverse(n: byte, tail: string)
    requires tail == "" || !IsDigit(tail[0])
    ensures IntegerU8(Digits(n) + tail) == Accept(n, tail)
  {
    var digits := Digits(n);
    SpanOfConcat(digits, tail, IsDigit);
    assert (digits + tail)[..|digits|] == digits && (digits + tail)[|digits|..] == tail;
    DigitsValue(n);
  }

  lemma VersionInverse(minor: byte)
    ensures ParseVersion("0." + Digits(minor)) == Some(Version(Sessions.MAJOR, minor))
    ensures NoBreak("0." + Digits(minor))
  {
    var digits := Digits(minor);
    assert "0." + digits == Digits(0) + ("." + digits);
    IntegerInverse(0, "." + digits);
    TagInverse(".", digits);
    IntegerInverse(minor, "");
    assert digits + "" == digits;
  }

  // ---------- the tokens field ----------

  lemma ConstantsHaveNoBreak()
    ensures NoBreak(UNLIMITED) && NoBreak(TOKENLESS) && UNLIMITED != TOKENLESS
  {
  }

  ghost predicate TokensPrintable(codec: Codec, ts: Option<seq<TokenInfo>>)
  {
    ts.Some? ==> forall i :: 0 <= i < |ts.value| ==> Printable(codec, ts.value[i].token)
  }

  function ReportedTokens(codec: Codec, ts: Option<seq<TokenInfo>>): TokenLimits
  {
    if ts.None? then AnyTokens else SpecificLimits(Limits(codec, LimitFields(codec, ts.value)))
  }

  function IntendedTokens(ts: Option<seq<TokenInfo>>): TokenLimits
  {
    if ts.None? then AnyTokens else SpecificLimits(Intended(ts.value))
  }

  lemma BlockField(key: string, printed: string, lines: string, rest: string)
    requires "\n" <= printed && printed + "\n" == "\n" + lines
    ensures PrintField(Field(key, printed)) + ("\n" + rest) == key + (":" + ("\n" + (lines + rest)))
  {
    var after := "\n" + (lines + rest);
    assert printed + ("\n" + rest) == (printed + "\n") + rest;
    assert ("\n" + lines) + rest == after;
    assert PrintField(Field(key, printed)) + ("\n" + rest) == key + (":" + (printed + ("\n" + rest)));
  }

  lemma BlockPart(lines: string, rest: string)
    requires DashBlock(lines + rest) == |lines|
    ensures ValuePart("\n" + (lines + rest)) == Accept(lines, rest)
  {
    var b := lines + rest;
    assert ("\n" + b)[1..] == b && ("\n" + b)[0] == '\n';
    assert b[..|lines|] == lines && b[|lines|..] == rest;
  }

  lemma BlockValue(key: string, lines: string, rest: string)
    requires DashBlock(lines + rest) == |lines|
    ensures TaggedValue(key, key + (":" + ("\n" + (lines + rest)))) == Accept(lines, rest)
  {
    BlockPart(lines, rest);
    var after := "\n" + (lines + rest);
    TagInverse(key, ":" + after);
    TagInverse(":", after);
  }

  lemma BlockTokens(fields: seq<Field>, rest: string)
    requires fields != [] && NameFields(fields) && EndsBlock(rest)
    ensures TaggedValue("tokens", PrintField(Field("tokens", PrintLimits(fields))) + ("\n" + rest)) ==
            Accept(DashLines(fields), rest)
  {
    PrintedLimits(fields);
    assert PrintLimits(fields)[0] == '\n';
    BlockField("tokens", PrintLimits(fields), DashLines(fields), rest);
    BlockInverse(fields, rest);
    BlockValue("tokens", DashLines(fields), rest);
  }

  lemma ParsedConstants(codec: Codec)
    ensures ParseTokens(codec, UNLIMITED) == Some(AnyTokens)
            && ParseTokens(codec, TOKENLESS) == Some(SpecificLimits([]))
    ensures NoBreak(UNLIMITED) && NoBreak(TOKENLESS)
  {
    ConstantsHaveNoBreak();
  }

  lemma ParsedBlock(codec: Codec, fields: seq<Field>)
    requires fields != [] && NameFields(fields)
    ensures ParseTokens(codec, DashLines(fields)) == Some(SpecificLimits(Limits(codec, fields)))
  {
    LimitsInverse(codec, fields);
    assert DashLines(fields)[0] == '-' && UNLIMITED[0] == 't' && TOKENLESS[0] == 't';
  }

  /** The tokens field reads back as the tokens the parser reports for the printed names. */
  lemma TokensInverse(codec: Codec, ts: Option<seq<TokenInfo>>, rest: string)
    requires TokensPrintable(codec, ts) && EndsBlock(rest)
    ensures var p := TaggedValue("tokens", PrintField(Field("tokens", SerializeTokenList(codec, ts))) + ("\n" + rest));
            p.Accept? && p.rest == rest && ParseTokens(codec, p.value) == Some(ReportedTokens(codec, ts))
  {
    ParsedConstants(codec);
    if ts.None? {
      TaggedInverse("tokens", UNLIMITED, rest);
    } else if ts.value == [] {
      TaggedInverse("tokens", TOKENLESS, rest);
    } else {
      LimitFieldsAreNames(codec, ts.value);
      BlockTokens(LimitFields(codec, ts.value), rest);
      ParsedBlock(codec, LimitFields(codec, ts.value));
    }
  }

  /** No symbol of the list reads as a key. */
  ghost predicate TokensUnambiguous(codec: Codec, ts: Option<seq<TokenInfo>>)
  {
    ts.Some? ==> forall i :: 0 <= i < |ts.value| ==> Unambiguous(codec, ts.value[i].token)
  }

  lemma {:induction false} LimitsAt(codec: Codec, fields: seq<Field>)
    ensures |Limits(codec, fields)| == |fields|
    ensures forall i :: 0 <= i < |fields| ==>
            Limits(codec, fields)[i] == TokenLimit(Classify(codec, fields[i].key), fields[i].value)
  {
    if fields != [] {
      LimitsAt(codec, fields[1..]);
    }
  }

  lemma TokensReportedExactly(codec: Codec, ts: Option<seq<TokenInfo>>)
    requires TokensPrintable(codec, ts)
    ensures ReportedTokens(codec, ts) == IntendedTokens(ts) <==> TokensUnambiguous(codec, ts)
  {
    if ts.Some? {
      var reported, intended := Limits(codec, LimitFields(codec, ts.value)), Intended(ts.value);
      LimitsAt(codec, LimitFields(codec, ts.value));
      forall i | 0 <= i < |ts.value| ensures reported[i] == intended[i] <==> Unambiguous(codec, ts.value[i].token)
      {
        ClassifyInverts(codec, ts.value[i].token);
      }
    }
  }

  // ---------- the extras ----------

  lemma {:induction false} GroupsAreKeys(s: string)
    requires SnakeGroups(s)
    ensures forall i :: 0 <= i < |s| ==> InKey(s[i])
    decreases |s|
  {
    if s != "" {
      var n := SpanLength(s[1..], IsLowerOrDigit);
      GroupsAreKeys(s[1 + n..]);
      forall i | 0 <= i < |s| ensures InKey(s[i])
      {
        if 0 < i <= n {
          assert IsLowerOrDigit(s[1..][i - 1]);
        } else if i > n {
          assert s[i] == s[1 + n..][i - 1 - n];
        }
      }
    }
  }

  lemma SnakeCaseReads(key: string)
    requires SnakeCase(key)
    ensures ReadsKey(AnyKey, key, key) && key != "" && key[0] != '-'
  {
    var n := SpanLength(key, IsLower);
    GroupsAreKeys(key[n..]);
    forall i | 0 <= i < |key| ensures InKey(key[i])
    {
      if i >= n {
        assert key[i] == key[n..][i - n];
      }
    }
    assert IsLower(key[0]);
    forall tail: string ensures AnyKey(key + (":" + tail)) == Accept(key, ":" + tail)
    {
      ReadsTake1(InKey, key);
      assert ((s: string) => Take1(InKey, s))(key + (":" + tail)) == Accept(key, ":" + tail);
    }
  }

  /** After a printed extra: nothing, or a new line and the others. */
  function TailOf(extra: seq<Field>): string
    requires extra != []
  {
    if |extra| == 1 then "" else "\n" + SerializeKV(extra[1..])
  }

  function RestOf(extra: seq<Field>): string { if |extra| <= 1 then "" else SerializeKV(extra[1..]) }

  lemma Associates(a: string, b: string, c: string)
    ensures a + b + c == a + (b + c)
    ensures a + "" == a
  {
  }

  lemma PrintedExtra(extra: seq<Field>)
    requires extra != []
    ensures SerializeKV(extra) == PrintField(extra[0]) + TailOf(extra)
    ensures EndsLine(TailOf(extra), RestOf(extra))
  {
    Associates(PrintField(extra[0]), "\n", RestOf(extra));
  }

  predicate NoReturn(extra: seq<Field>) { forall i :: 0 <= i < |extra| ==> '\r' !in extra[i].value }

  predicate SnakeKeys(extra: seq<Field>)
  {
    forall i :: 0 <= i < |extra| ==> SnakeCase(extra[i].key) && '\n' !in extra[i].value
  }

  lemma ExtrasStep(s: string)
    ensures var p, (fields, rest) := KeyValuePair(AnyKey, s), ParseExtras(s);
            && (p.Reject? ==> fields == [] && rest == s)
            && (p.Accept? ==>
                fields == [Field(p.value.0, p.value.1)] + ParseExtras(p.rest).0 && rest == ParseExtras(p.rest).1)
  {
  }

  /** A first extra without a carriage return is read back, and the others are left. */
  lemma FirstExtra(extra: seq<Field>)
    requires extra != [] && SnakeKeys(extra) && '\r' !in extra[0].value
    ensures KeyValuePair(AnyKey, SerializeKV(extra)) == Accept((extra[0].key, extra[0].value), RestOf(extra))
  {
    var f := extra[0];
    PrintedExtra(extra);
    SnakeCaseReads(f.key);
    FieldInverse(AnyKey, f.key, f.key, f.value, TailOf(extra), RestOf(extra));
  }

  lemma {:induction false} ExtrasInverse(extra: seq<Field>)
    requires SnakeKeys(extra) && NoReturn(extra)
    ensures ParseExtras(SerializeKV(extra)) == (extra, "")
    decreases |extra|
  {
    ExtrasStep(SerializeKV(extra));
    if extra != [] {
      FirstExtra(extra);
      ExtrasInverse(extra[1..]);
      assert extra == [Field(extra[0].key, extra[0].value)] + extra[1..];
    }
  }

  lemma ShortInline(value: string, tail: string)
    requires '\r' in value
    ensures var p := Inline(" " + (value + tail)); p.Accept? ==> p.value != value
  {
    var body := value + tail;
    TagInverse(" ", body);
    var i :| 0 <= i < |value| && value[i] == '\r';
    var n := SpanLength(body, InLine);
    assert body[i] == '\r';
    assert n <= i;
  }

  /** A value with a carriage return: the pair does not parse, or it parses with a shorter value. */
  lemma ReturnBreaks(f: Field, tail: string)
    requires SnakeCase(f.key) && '\n' !in f.value && '\r' in f.value
    ensures var p := KeyValuePair(AnyKey, PrintField(f) + tail);
            p.Accept? ==> p.value.0 == f.key && p.value.1 != f.value
  {
    FieldText(f, tail);
    SnakeCaseReads(f.key);
    PairInverse(AnyKey, f.key, f.key, " " + (f.value + tail));
    ShortInline(f.value, tail);
    ShortValue(f.value, tail);
  }

  lemma ShortValue(value: string, tail: string)
    ensures ValuePart(" " + (value + tail)) == Inline(" " + (value + tail))
  {
    assert (" " + (value + tail))[0] == ' ';
  }

  ghost predicate Differs(fields: seq<Field>, extra: seq<Field>)
  {
    exists i :: 0 <= i < |fields| && i < |extra| && fields[i].key == extra[i].key && fields[i].value != extra[i].value
  }

  lemma DiffersLater(f: Field, fields: seq<Field>, extra: seq<Field>)
    requires extra != [] && Differs(fields, extra[1..])
    ensures Differs([f] + fields, extra)
  {
    var i :| 0 <= i < |fields| && i < |extra[1..]| && fields[i].key == extra[1..][i].key
      && fields[i].value != extra[1..][i].value;
    var j := i + 1;
    assert ([f] + fields)[j] == fields[i] && extra[j] == extra[1..][i];
  }

  /** The extras do not come back: text is left over, or a value has changed. */
  ghost predicate Broken(extra: seq<Field>)
  {
    var (fields, rest) := ParseExtras(SerializeKV(extra));
    rest != "" || Differs(fields, extra)
  }

  lemma BrokenNow(extra: seq<Field>)
    requires extra != [] && SnakeKeys(extra) && '\r' in extra[0].value
    ensures Broken(extra)
  {
    ExtrasStep(SerializeKV(extra));
    BrokenFirst(extra);
    var p := KeyValuePair(AnyKey, SerializeKV(extra));
    if p.Accept? {
      DiffersNow(Field(p.value.0, p.value.1), ParseExtras(p.rest).0, extra);
    }
  }

  lemma BrokenLater(extra: seq<Field>)
    requires extra != [] && SnakeKeys(extra) && '\r' !in extra[0].value && Broken(extra[1..])
    ensures Broken(extra)
  {
    ExtrasStep(SerializeKV(extra));
    FirstExtra(extra);
    var later := ParseExtras(RestOf(extra));
    assert SerializeKV(extra[1..]) == RestOf(extra);
    if later.1 == "" {
      DiffersLater(Field(extra[0].key, extra[0].value), later.0, extra);
    }
  }

  lemma {:induction false} ExtrasBroken(extra: seq<Field>)
    requires SnakeKeys(extra) && !NoReturn(extra)
    ensures Broken(extra)
    decreases |extra|
  {
    if '\r' in extra[0].value {
      BrokenNow(extra);
    } else {
      ExtrasBroken(extra[1..]);
      BrokenLater(extra);
    }
  }

  lemma DiffersNow(f: Field, fields: seq<Field>, extra: seq<Field>)
    requires extra != [] && f.key == extra[0].key && f.value != extra[0].value
    ensures Differs([f] + fields, extra)
  {
    assert ([f] + fields)[0] == f;
  }

  lemma BrokenFirst(extra: seq<Field>)
    requires extra != [] && SnakeKeys(extra) && '\r' in extra[0].value
    ensures SerializeKV(extra) != ""
    ensures var p := KeyValuePair(AnyKey, SerializeKV(extra));
            p.Accept? ==> p.value.0 == extra[0].key && p.value.1 != extra[0].value
  {
    PrintedExtra(extra);
    SnakeCaseReads(extra[0].key);
    ReturnBreaks(extra[0], TailOf(extra));
    assert |PrintField(extra[0])| > 0;
  }

  predicate Unreserved(fields: seq<Field>) { forall i :: 0 <= i < |fields| ==> fields[i].key !in RESERVED }

  predicate DistinctKeys(fields: seq<Field>) { forall i, j :: 0 <= i < j < |fields| ==> fields[i].key != fields[j].key }

  /** The extras as a map. */
  function ExtraMap(fields: seq<Field>): map<string, string>
  {
    if fields == [] then map[] else map[fields[0].key := fields[0].value] + ExtraMap(fields[1..])
  }

  lemma {:induction false} ExtraMapHolds(fields: seq<Field>)
    ensures forall k :: k in ExtraMap(fields) ==> exists i :: 0 <= i < |fields| && fields[i].key == k
    ensures DistinctKeys(fields) ==>
            forall i :: 0 <= i < |fields| ==>
              fields[i].key in ExtraMap(fields) && ExtraMap(fields)[fields[i].key] == fields[i].value
  {
    if fields != [] {
      var rest := fields[1..];
      ExtraMapHolds(rest);
      assert forall i :: 0 <= i < |rest| ==> rest[i] == fields[i + 1];
      forall k | k in ExtraMap(fields) ensures exists i :: 0 <= i < |fields| && fields[i].key == k
      {
        if k in ExtraMap(rest) {
          var i :| 0 <= i < |rest| && rest[i].key == k;
          assert fields[i + 1].key == k;
        }
      }
      if DistinctKeys(fields) {
        assert fields[0].key !in ExtraMap(rest);
        forall i | 0 <= i < |fields|
          ensures fields[i].key in ExtraMap(fields) && ExtraMap(fields)[fields[i].key] == fields[i].value
        {
          if i > 0 {
            assert fields[i] == rest[i - 1];
          }
        }
      }
    }
  }

  predicate Fresh(fields: seq<Field>, m: map<string, string>)
  {
    forall i :: 0 <= i < |fields| ==> fields[i].key !in m
  }

  lemma FreshStep(fields: seq<Field>, m: map<string, string>)
    requires fields != []
    ensures DistinctKeys(fields) && Fresh(fields, m) <==>
            fields[0].key !in m && DistinctKeys(fields[1..]) && Fresh(fields[1..], m[fields[0].key := fields[0].value])
  {
    var rest := fields[1..];
    assert forall i :: 0 <= i < |rest| ==> rest[i] == fields[i + 1];
    assert forall i :: 0 < i < |fields| ==> fields[i] == rest[i - 1];
  }

  lemma UnreservedStep(fields: seq<Field>)
    requires fields != []
    ensures Unreserved(fields) <==> fields[0].key !in RESERVED && Unreserved(fields[1..])
  {
    assert forall i :: 0 < i < |fields| ==> fields[i] == fields[1..][i - 1];
  }

  lemma AddOne(m: map<string, string>, f: Field, rest: map<string, string>)
    ensures m[f.key := f.value] + rest == m + (map[f.key := f.value] + rest)
  {
  }

  /** The fold adds every pair, and refuses exactly when a key is reserved or comes twice. */
  lemma {:induction false} FoldAdds(fields: seq<Field>, m: map<string, string>)
    ensures FoldExtras(fields, m).Some? <==> Unreserved(fields) && DistinctKeys(fields) && Fresh(fields, m)
    ensures FoldExtras(fields, m).Some? ==> FoldExtras(fields, m).value == m + ExtraMap(fields)
    decreases |fields|
  {
    if fields != [] {
      FreshStep(fields, m);
      UnreservedStep(fields);
      if fields[0].key !in RESERVED && fields[0].key !in m {
        var more := m[fields[0].key := fields[0].value];
        FoldAdds(fields[1..], more);
        AddOne(m, fields[0], ExtraMap(fields[1..]));
      }
    }
  }

  /** What the parser makes of the printed extras, together with the end-of-input check. */
  predicate ExtrasRead(extra: seq<Field>)
  {
    var (fields, rest) := ParseExtras(SerializeKV(extra));
    rest == "" && FoldExtras(fields, map[]) == Some(ExtraMap(extra))
  }

  lemma DifferentMaps(fields: seq<Field>, extra: seq<Field>)
    requires DistinctKeys(fields) && DistinctKeys(extra) && Differs(fields, extra)
    ensures ExtraMap(fields) != ExtraMap(extra)
  {
    ExtraMapHolds(fields);
    ExtraMapHolds(extra);
    var i :| 0 <= i < |fields| && i < |extra| && fields[i].key == extra[i].key && fields[i].value != extra[i].value;
    assert ExtraMap(fields)[fields[i].key] != ExtraMap(extra)[extra[i].key];
  }

  /** Extras the SDK lets through read back exactly when no key is reserved and no value has a carriage return. */
  lemma ExtrasReadExactly(extra: seq<Field>)
    requires ExtraAllowed(extra)
    ensures ExtrasRead(extra) <==> Unreserved(extra) && NoReturn(extra)
  {
    var (fields, rest) := ParseExtras(SerializeKV(extra));
    FoldAdds(fields, map[]);
    assert map[] + ExtraMap(fields) == ExtraMap(fields);
    if NoReturn(extra) {
      ExtrasInverse(extra);
    } else {
      ExtrasBroken(extra);
      if rest == "" && DistinctKeys(fields) {
        DifferentMaps(fields, extra);
      }
    }
  }

  lemma {:induction false} LowerIsSnake(s: string)
    requires s != "" && forall i :: 0 <= i < |s| ==> IsLower(s[i])
    ensures SpanLength(s, IsLower) == |s| && SnakeCase(s)
  {
    if |s| > 1 {
      LowerIsSnake(s[1..]);
    }
  }

  lemma OneExtra(f: Field)
    requires SnakeCase(f.key) && '\n' !in f.value
    ensures ExtraAllowed([f]) && (ExtrasRead([f]) <==> f.key !in RESERVED && '\r' !in f.value)
  {
    var extra := [f];
    assert ExtraAllowed(extra);
    ExtrasReadExactly(extra);
    assert extra[0] == f;
  }

  /** The first failure: with the key "version", every value the SDK lets through is lost. */
  lemma ReservedExtraIsLost(f: Field)
    requires f.key == "version" && '\n' !in f.value
    ensures ExtraAllowed([f]) && !ExtrasRead([f])
  {
    LowerIsSnake(f.key);
    OneExtra(f);
    assert f.key == RESERVED[0];
  }

  /** The second: under no key the SDK lets through does the value "a\rb" read back. */
  lemma ReturnInExtraIsLost(f: Field)
    requires SnakeCase(f.key) && f.value == "a\rb"
    ensures ExtraAllowed([f]) && !ExtrasRead([f])
  {
    assert f.value[1] == '\r';
    OneExtra(f);
  }

  // ---------- the whole intent ----------

  datatype Draft = Draft(minor: byte, chainId: string, domain: string, expires: string, sessionKey: string,
                         tokens: Option<seq<TokenInfo>>, extra: seq<Field>)

  function DraftBody(codec: Codec, d: Draft): Body
  {
    Body("0." + Digits(d.minor), d.chainId, d.domain, d.expires, d.sessionKey, SerializeTokenList(codec, d.tokens))
  }

  function PrintDraft(codec: Codec, d: Draft): string { BuildText(DraftBody(codec, d), d.extra) }

  /** What the SDK and its caller have established when they print. */
  ghost predicate ValidDraft(codec: Codec, d: Draft)
  {
    && NoBreak(d.chainId) && NoBreak(d.domain) && NoBreak(d.expires) && NoBreak(d.sessionKey)
    && codec.time(d.expires).Some? && codec.key(d.sessionKey).Some?
    && TokensPrintable(codec, d.tokens) && ExtraAllowed(d.extra)
  }

  function IntendedMessage(codec: Codec, d: Draft): Message
    requires codec.time(d.expires).Some? && codec.key(d.sessionKey).Some?
  {
    Message(Version(Sessions.MAJOR, d.minor), d.chainId, d.domain, codec.time(d.expires).value,
            codec.key(d.sessionKey).value, IntendedTokens(d.tokens), ExtraMap(d.extra))
  }

  lemma ExtrasEndBlock(extra: seq<Field>)
    requires SnakeKeys(extra)
    ensures EndsBlock(SerializeKV(extra))
  {
    if extra != [] {
      PrintedExtra(extra);
      SnakeCaseReads(extra[0].key);
      assert SerializeKV(extra)[0] == extra[0].key[0];
    }
  }

  lemma LinesStep(f: Field, fields: seq<Field>, tail: string)
    ensures Lines([f] + fields, tail) == PrintField(f) + ("\n" + Lines(fields, tail))
  {
    assert ([f] + fields)[1..] == fields;
  }

  lemma BodyLines(b: Body, tail: string)
    ensures var l5 := PrintField(Field("tokens", b.tokens)) + ("\n" + tail);
            var l4 := PrintField(Field("session_key", b.sessionKey)) + ("\n" + l5);
            var l3 := PrintField(Field("expires", b.expires)) + ("\n" + l4);
            var l2 := PrintField(Field("domain", b.domain)) + ("\n" + l3);
            var l1 := PrintField(Field("chain_id", b.chainId)) + ("\n" + l2);
            Lines(BodyFields(b), tail) == PrintField(Field("version", b.version)) + ("\n" + l1)
  {
    var f := BodyFields(b);
    LinesStep(f[0], f[1..], tail);
    LinesStep(f[1], f[2..], tail);
    LinesStep(f[2], f[3..], tail);
    LinesStep(f[3], f[4..], tail);
    LinesStep(f[4], f[5..], tail);
    LinesStep(f[5], [], tail);
    assert f == [f[0]] + f[1..] && f[1..] == [f[1]] + f[2..] && f[2..] == [f[2]] + f[3..];
    assert f[3..] == [f[3]] + f[4..] && f[4..] == [f[4]] + f[5..] && f[5..] == [f[5]] + [];
  }

  lemma BodyInverse(codec: Codec, d: Draft, tail: string)
    requires ValidDraft(codec, d) && EndsBlock(tail)
    ensures var p := ParseBody(Lines(BodyFields(DraftBody(codec, d)), tail));
            && p.Accept? && p.rest == tail
            && p.value == DraftBody(codec, d).(tokens := p.value.tokens)
            && ParseTokens(codec, p.value.tokens) == Some(ReportedTokens(codec, d.tokens))
  {
    var b := DraftBody(codec, d);
    BodyLines(b, tail);
    var l5 := PrintField(Field("tokens", b.tokens)) + ("\n" + tail);
    var l4 := PrintField(Field("session_key", b.sessionKey)) + ("\n" + l5);
    var l3 := PrintField(Field("expires", b.expires)) + ("\n" + l4);
    var l2 := PrintField(Field("domain", b.domain)) + ("\n" + l3);
    var l1 := PrintField(Field("chain_id", b.chainId)) + ("\n" + l2);
    VersionInverse(d.minor);
    TaggedInverse("version", b.version, l1);
    TaggedInverse("chain_id", b.chainId, l2);
    TaggedInverse("domain", b.domain, l3);
    TaggedInverse("expires", b.expires, l4);
    TaggedInverse("session_key", b.sessionKey, l5);
    TokensInverse(codec, d.tokens, tail);
  }

  lemma PrefixInverse(codec: Codec, rest: string)
    ensures ParseMessage(codec, PREFIX + ("\n" + rest)) == ParseFields(codec, rest)
  {
    TagInverse(PREFIX, "\n" + rest);
    assert ("\n" + rest)[1..] == rest;
  }

  lemma Prefixed(prefix: string, kv: string, tail: string)
    ensures prefix + "\n" + kv + "\n" + tail == prefix + ("\n" + (kv + "\n" + tail))
  {
  }

  lemma Assembled(codec: Codec, d: Draft, tokens: string, extra: map<string, string>)
    requires ValidDraft(codec, d) && ParseTokens(codec, tokens) == Some(ReportedTokens(codec, d.tokens))
    ensures Assemble(codec, DraftBody(codec, d).(tokens := tokens), extra) ==
            Some(IntendedMessage(codec, d).(tokens := ReportedTokens(codec, d.tokens), extra := extra))
  {
    VersionInverse(d.minor);
  }

  lemma FieldsReadExactly(codec: Codec, d: Draft)
    requires ValidDraft(codec, d)
    ensures ParseFields(codec, Lines(BodyFields(DraftBody(codec, d)), SerializeKV(d.extra))) ==
            Some(IntendedMessage(codec, d)) <==>
            TokensUnambiguous(codec, d.tokens) && Unreserved(d.extra) && NoReturn(d.extra)
  {
    var tail := SerializeKV(d.extra);
    ExtrasEndBlock(d.extra);
    BodyInverse(codec, d, tail);
    var tokens := ParseBody(Lines(BodyFields(DraftBody(codec, d)), tail)).value.tokens;
    var extra := FoldExtras(ParseExtras(tail).0, map[]);
    if extra.Some? {
      Assembled(codec, d, tokens, extra.value);
    }
    TokensReportedExactly(codec, d.tokens);
    ExtrasReadExactly(d.extra);
  }

  /**
   * Parsing the intent the SDK prints returns exactly its fields, its tokens in order and its
   * extras, if and only if no token symbol reads as a key, no extra key is reserved and no
   * extra value contains a carriage return.
   */
  lemma IntentReadExactly(codec: Codec, d: Draft)
    requires ValidDraft(codec, d)
    ensures ParseMessage(codec, PrintDraft(codec, d)) == Some(IntendedMessage(codec, d)) <==>
            TokensUnambiguous(codec, d.tokens) && Unreserved(d.extra) && NoReturn(d.extra)
  {
    var fields, tail := BodyFields(DraftBody(codec, d)), SerializeKV(d.extra);
    SerializedLines(fields, tail);
    Prefixed(PREFIX, SerializeKV(fields), tail);
    PrefixInverse(codec, Lines(fields, tail));
    FieldsReadExactly(codec, d);
  }

  lemma {:induction false} ReservedAreAbsent(fields: seq<Field>, k: string)
    requires Unreserved(fields) && k in RESERVED
    ensures k !in ExtraMap(fields)
  {
    ExtraMapHolds(fields);
  }

  lemma FoldsFromEmpty(fields: seq<Field>)
    ensures FoldExtras(fields, map[]).Some? ==>
              Unreserved(fields) && DistinctKeys(fields) && FoldExtras(fields, map[]).value == ExtraMap(fields)
  {
    FoldAdds(fields, map[]);
    assert map[] + ExtraMap(fields) == ExtraMap(fields);
  }

  lemma ParsedExtras(codec: Codec, s: string)
    requires ParseMessage(codec, s).Some?
    ensures var fields := ParseExtras(ParseBody(LineEnding(Tag(PREFIX, s).rest).rest).rest).0;
            Unreserved(fields) && DistinctKeys(fields) && ParseMessage(codec, s).value.extra == ExtraMap(fields)
  {
    FoldsFromEmpty(ParseExtras(ParseBody(LineEnding(Tag(PREFIX, s).rest).rest).rest).0);
  }

  lemma ParsedMajor(codec: Codec, s: string)
    requires ParseMessage(codec, s).Some?
    ensures ParseMessage(codec, s).value.version.major == 0
  {
  }

  /** Whatever the text, a message that parses has the current major version and no reserved or doubly given extra. */
  lemma ParsedMessagesAreSound(codec: Codec, s: string)
    requires ParseMessage(codec, s).Some?
    ensures var m := ParseMessage(codec, s).value;
            && m.version.major == 0
            && "version" !in m.extra && "chain_id" !in m.extra && "domain" !in m.extra
            && "expires" !in m.extra && "session_key" !in m.extra && "tokens" !in m.extra
    ensures var fields := ParseExtras(ParseBody(LineEnding(Tag(PREFIX, s).rest).rest).rest).0;
            Unreserved(fields) && DistinctKeys(fields) && ParseMessage(codec, s).value.extra == ExtraMap(fields)
  {
    ParsedMajor(codec, s);
    ParsedExtras(codec, s);
    var fields := ParseExtras(ParseBody(LineEnding(Tag(PREFIX, s).rest).rest).rest).0;
    forall k | k in RESERVED ensures k !in ExtraMap(fields)
    {
      ReservedAreAbsent(fields, k);
    }
    assert RESERVED[0] in RESERVED && RESERVED[1] in RESERVED && RESERVED[2] in RESERVED;
    assert RESERVED[3] in RESERVED && RESERVED[4] in RESERVED && RESERVED[5] in RESERVED;
  }
}
