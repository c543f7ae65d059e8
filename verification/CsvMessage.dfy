/** The message field of the CSV log format, and a reader for quoted fields as section 2
    of RFC 4180 defines them. */
module CsvMessage {
  const MAX_MESSAGE_SIZE: nat := 32000

  /** The message as it is logged: long ones are cut and end in three dots. */
  function Truncated(message: string): string {
    if |message| > MAX_MESSAGE_SIZE then message[..MAX_MESSAGE_SIZE] + "..." else message
  }

  function Doubled(s: string): string {
    if s == "" then "" else (if s[0] == '"' then "\"\"" else [s[0]]) + Doubled(s[1..])
  }

  /** A quoted field: quotes around the text, and quotes in it doubled. */
  function Field(s: string): string {
    "\"" + Doubled(s) + "\""
  }

  // ---------- The printer ----------

  /** `std::getline` with a quote as delimiter: the text up to the next quote, which is
      dropped, or up to the end of the stream, which is then noted. */
  method GetLine(text: string, pos: nat) returns (token: string, next: nat, eof: bool)
    requires pos <= |text|
    ensures pos <= next <= |text| && '"' !in token
    ensures if eof then token == text[pos..] && next == |text|
            else next > pos && token == text[pos..next - 1] && text[next - 1] == '"'
  {
    next := pos;
    while next < |text| && text[next] != '"'
      invariant pos <= next <= |text|
      invariant '"' !in text[pos..next]
    {
      next := next + 1;
    }
    token := text[pos..next];
    eof := next == |text|;
    if !eof {
      next := next + 1;
    }
  }

  lemma {:induction false} DoubledPlain(token: string, rest: string)
    requires '"' !in token
    ensures Doubled(token + rest) == token + Doubled(rest)
  {
    if token == "" {
      assert token + rest == rest;
    } else {
      DoubledPlain(token[1..], rest);
      assert (token + rest)[0] == token[0] && (token + rest)[1..] == token[1..] + rest;
    }
  }

  /** Quoting what precedes a quote, then what follows it, quotes the whole. */
  lemma FieldSplits(printed: string, token: string, rest: string)
    requires '"' !in token
    ensures printed + Field(token + ("\"" + rest)) == printed + ("\"" + token + "\"") + Field(rest)
  {
    DoubledPlain(token, "\"" + rest);
    assert ("\"" + rest)[1..] == rest;
    var q := "\"" + token + "\"";
    assert Field(token + ("\"" + rest)) == q + Field(rest);
    assert printed + (q + Field(rest)) == printed + q + Field(rest);
  }

  lemma PlainField(token: string)
    requires '"' !in token
    ensures Field(token) == "\"" + token + "\""
  {
    DoubledPlain(token, "");
    assert token + "" == token;
  }

  /** The loop over the stream. A token is quoted for every stretch between quotes, so
      that a quote comes out doubled. */
  method QuoteTokens(text: string) returns (ss: string)
    ensures ss == Field(text)
  {
    ss := "";
    var pos, eof := 0, false;
    assert text[0..] == text;
    while !eof
      invariant pos <= |text|
      invariant Field(text) == if eof then ss else ss + Field(text[pos..])
      decreases |text| - pos, !eof
    {
      ghost var rest := text[pos..];
      var token;
      token, pos, eof := GetLine(text, pos);
      if eof {
        PlainField(token);
      } else {
        assert rest == token + ("\"" + text[pos..]);
        FieldSplits(ss, token, text[pos..]);
      }
      ss := ss + ("\"" + token + "\"");
    }
  }

  /** `CsvFormatterImpl::format`, from the message on. */
  method FormatMessage(record: string) returns (ss: string)
    ensures ss == Field(Truncated(record)) + "\n"
  {
    var message := record;
    if |message| > MAX_MESSAGE_SIZE {
      message := message[..MAX_MESSAGE_SIZE];
      message := message + "...";
    }
    ss := QuoteTokens(message);
    ss := ss + "\n";
  }

  // ---------- The reader ----------

  datatype Read = Malformed | Content(text: string, rest: string)

  function Prepend(c: char, r: Read): Read {
    if r.Malformed? then r else Content([c] + r.text, r.rest)
  }

  /** Inside a quoted field: a doubled quote stands for a quote, a single one ends it. */
  function ReadInside(s: string): Read {
    if s == "" then Malformed
    else if s[0] != '"' then Prepend(s[0], ReadInside(s[1..]))
    else if |s| > 1 && s[1] == '"' then Prepend('"', ReadInside(s[2..]))
    else Content("", s[1..])
  }

  function ReadField(s: string): Read {
    if s == "" || s[0] != '"' then Malformed else ReadInside(s[1..])
  }

  lemma {:induction false} InsideIsRead(s: string, rest: string)
    requires rest == "" || rest[0] != '"'
    ensures ReadInside(Doubled(s) + "\"" + rest) == Content(s, rest)
  {
    var printed := Doubled(s) + "\"" + rest;
    if s == "" {
      assert printed[1..] == rest;
    } else {
      InsideIsRead(s[1..], rest);
      var tail := Doubled(s[1..]) + "\"" + rest;
      assert printed == (if s[0] == '"' then "\"\"" else [s[0]]) + tail;
      assert if s[0] == '"' then printed[2..] == tail else printed[1..] == tail;
      assert [s[0]] + s[1..] == s;
    }
  }

  /** A printed field is read back, whatever the text and whatever follows the field
      other than a further quote. */
  lemma FieldIsRead(s: string, rest: string)
    requires rest == "" || rest[0] != '"'
    ensures ReadField(Field(s) + rest) == Content(s, rest)
  {
    InsideIsRead(s, rest);
    assert (Field(s) + rest)[1..] == Doubled(s) + "\"" + rest;
  }

  /** What a reader finds at the end of a log line: the message, or its first 32000
      characters and three dots. */
  lemma MessageIsRead(message: string)
    ensures ReadField(Field(Truncated(message)) + "\n")
         == Content(if |message| <= 32000 then message else message[..32000] + "...", "\n")
  {
    FieldIsRead(Truncated(message), "\n");
  }

  /** It is the message itself exactly for messages of at most 32000 characters, and
      those that look as if they had been cut. */
  lemma MessageSurvivesExactly(message: string)
    ensures ReadField(Field(Truncated(message)) + "\n") == Content(message, "\n")
       <==> |message| <= MAX_MESSAGE_SIZE || (|message| == MAX_MESSAGE_SIZE + 3 && message[MAX_MESSAGE_SIZE..] == "...")
  {
    MessageIsRead(message);
    if |message| > MAX_MESSAGE_SIZE {
      var front := message[..MAX_MESSAGE_SIZE];
      assert message == front + message[MAX_MESSAGE_SIZE..];
      assert Truncated(message)[MAX_MESSAGE_SIZE..] == "...";
    }
  }

  /** Two log lines are alike only if their truncated messages are. */
  lemma PrintingIsInjective(a: string, b: string)
    requires Field(Truncated(a)) == Field(Truncated(b))
    ensures Truncated(a) == Truncated(b)
  {
    MessageIsRead(a);
    MessageIsRead(b);
  }
}
