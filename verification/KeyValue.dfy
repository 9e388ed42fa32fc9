/**
 * The key/value text format of signed intents: the parser combinators of the Rust side and
 * the line printer of the TypeScript side.
 */
module KeyValue {
  import opened Common

  datatype Parse<+T> = Reject | Accept(value: T, rest: string) {
    predicate IsFailure() { Reject? }
    function PropagateFailure<U>(): Parse<U>
      requires Reject?
    {
      Reject
    }
    function Extract(): (T, string)
      requires Accept?
    {
      (value, rest)
    }
  }

  type Parser<!T> = string -> Parse<T>

  // ---------- combinators ----------

  function Tag(t: string, s: string): Parse<string>
  {
    if t <= s then Accept(t, s[|t|..]) else Reject
  }

  function TagParser(t: string): Parser<string> { s => Tag(t, s) }

  function LineEnding(s: string): Parse<string>
  {
    if "\n" <= s then Accept("\n", s[1..])
    else if "\r\n" <= s then Accept("\r\n", s[2..])
    else Reject
  }

  predicate InLine(c: char) { c != '\r' && c != '\n' }

  predicate NoBreak(s: string) { forall i :: 0 <= i < |s| ==> InLine(s[i]) }

  /** Everything up to the end of the line; a carriage return that starts no line ending is an error. */
  function NotLineEnding(s: string): Parse<string>
  {
    var n := SpanLength(s, InLine);
    if n < |s| && s[n] == '\r' && LineEnding(s[n..]).Reject? then Reject else Accept(s[..n], s[n..])
  }

  function LineEndingOrEof(s: string): Parse<string>
  {
    if s == "" then Accept("", "") else LineEnding(s)
  }

  function Take1(p: char -> bool, s: string): Parse<string>
  {
    var n := SpanLength(s, p);
    if n == 0 then Reject else Accept(s[..n], s[n..])
  }

  /** One line that starts with a dash. */
  function DashLine(s: string): (p: Parse<string>)
    ensures p.Accept? ==> |p.rest| < |s|
  {
    var (_, b) :- Tag("-", s);
    var (text, b) :- NotLineEnding(b);
    var (_, b) :- LineEndingOrEof(b);
    Accept(text, b)
  }

  /** How much of `s` its leading dash lines take up. */
  function DashBlock(s: string): (n: nat)
    ensures n <= |s|
    decreases |s|
  {
    var line := DashLine(s);
    if line.Reject? then 0 else |s| - |line.rest| + DashBlock(line.rest)
  }

  /** What follows the colon: the rest of the line, a block of dash lines, or nothing at all. */
  function ValuePart(s: string): Parse<string>
  {
    var inline := Inline(s);
    if inline.Accept? then inline
    else if LineEnding(s).Accept? then
      var b := LineEnding(s).rest;
      Accept(b[..DashBlock(b)], b[DashBlock(b)..])
    else if s == "" then Accept("", "")
    else Reject
  }

  function Inline(s: string): Parse<string>
  {
    var (_, b) :- Tag(" ", s);
    var (value, b) :- NotLineEnding(b);
    var (_, b) :- LineEndingOrEof(b);
    Accept(value, b)
  }

  function KeyValuePair<K>(key: Parser<K>, s: string): Parse<(K, string)>
  {
    var (k, b) :- key(s);
    var (_, b) :- Tag(":", b);
    var (value, b) :- ValuePart(b);
    Accept((k, value), b)
  }

  predicate IsAlphanumeric(c: char) { 'a' <= c <= 'z' || 'A' <= c <= 'Z' || '0' <= c <= '9' }

  predicate InKey(c: char) { IsAlphanumeric(c) || c == '_' }

  function AnyKey(s: string): Parse<string> { Take1(InKey, s) }

  // ---------- printing ----------

  datatype Field = Field(key: string, value: string)

  function PrintField(f: Field): string
  {
    f.key + ":" + (if "\n" <= f.value then "" else " ") + f.value
  }

  function SerializeKV(fields: seq<Field>): string
  {
    if fields == [] then ""
    else if |fields| == 1 then PrintField(fields[0])
    else PrintField(fields[0]) + "\n" + SerializeKV(fields[1..])
  }

  // ---------- what the parsers make of printed text ----------

  lemma TagInverse(t: string, rest: string)
    ensures Tag(t, t + rest) == Accept(t, rest)
  {
    assert (t + rest)[|t|..] == rest;
  }

  /** The text after a printed value: the end of the text, or a new line. */
  predicate EndsLine(tail: string, rest: string)
  {
    (tail == "" && rest == "") || tail == "\n" + rest
  }

  lemma LineEnds(tail: string, rest: string)
    requires EndsLine(tail, rest)
    ensures LineEndingOrEof(tail) == Accept(tail[..|tail| - |rest|], rest)
    ensures tail == "" || !InLine(tail[0])
  {
    if tail != "" {
      assert tail[1..] == rest;
    }
  }

  lemma NotLineEndingStops(value: string, tail: string, rest: string)
    requires NoBreak(value) && EndsLine(tail, rest)
    ensures NotLineEnding(value + tail) == Accept(value, tail)
  {
    LineEnds(tail, rest);
    SpanOfConcat(value, tail, InLine);
    assert (value + tail)[..|value|] == value && (value + tail)[|value|..] == tail;
  }

  lemma InlineInverse(value: string, tail: string, rest: string)
    requires NoBreak(value) && EndsLine(tail, rest)
    ensures ValuePart(" " + (value + tail)) == Accept(value, rest)
  {
    TagInverse(" ", value + tail);
    NotLineEndingStops(value, tail, rest);
    LineEnds(tail, rest);
  }

  /** A key parser that stops at the colon. */
  ghost predicate ReadsKey<K>(key: Parser<K>, text: string, k: K)
  {
    forall tail :: key(text + (":" + tail)) == Accept(k, ":" + tail)
  }

  /** A printed field on one line, laid out as the parser walks it. */
  lemma FieldText(f: Field, tail: string)
    requires f.value == "" || f.value[0] != '\n'
    ensures PrintField(f) + tail == f.key + (":" + (" " + (f.value + tail)))
  {
  }

  lemma PairInverse<K>(key: Parser<K>, text: string, k: K, after: string)
    requires ReadsKey(key, text, k)
    ensures KeyValuePair(key, text + (":" + after)) ==
            match ValuePart(after)
            case Reject => Reject
            case Accept(value, rest) => Accept((k, value), rest)
  {
    assert key(text + (":" + after)) == Accept(k, ":" + after);
    TagInverse(":", after);
  }

  lemma FieldInverse<K>(key: Parser<K>, text: string, k: K, value: string, tail: string, rest: string)
    requires ReadsKey(key, text, k)
    requires NoBreak(value) && EndsLine(tail, rest)
    ensures KeyValuePair(key, PrintField(Field(text, value)) + tail) == Accept((k, value), rest)
  {
    assert value != "" ==> InLine(value[0]);
    FieldText(Field(text, value), tail);
    PairInverse(key, text, k, " " + (value + tail));
    InlineInverse(value, tail, rest);
  }

  lemma ReadsTag(t: string)
    ensures ReadsKey(TagParser(t), t, t)
  {
    forall tail: string ensures Tag(t, t + (":" + tail)) == Accept(t, ":" + tail)
    {
      TagInverse(t, ":" + tail);
    }
  }

  lemma ReadsTake1(p: char -> bool, text: string)
    requires text != "" && !p(':') && forall i :: 0 <= i < |text| ==> p(text[i])
    ensures ReadsKey((s: string) => Take1(p, s), text, text)
  {
    forall tail: string ensures Take1(p, text + (":" + tail)) == Accept(text, ":" + tail)
    {
      SpanOfConcat(text, ":" + tail, p);
      var s := text + (":" + tail);
      assert s[..|text|] == text && s[|text|..] == ":" + tail;
    }
  }
}
