/** Field escaping of the product export, and a reader for one record in the
    quoting convention of RFC 4180, section 2 (items 5 to 7), to show that the
    escaping can be undone. */
module Csv {
  import opened Wrappers
  import opened Text

  /** A field is quoted when it holds a comma or a double quote; a line break
      alone does not cause quoting, where RFC 4180 would quote it. */
  predicate NeedsQuotes(v: string) {
    ',' in v || '"' in v
  }

  /** `v.replace(/"/g, '""')`: every double quote doubled. */
  function DoubleQuotes(v: string): (r: string)
    ensures '"' !in v ==> r == v
    ensures |r| == |v| + Count(v, '"')
    decreases |v|
  {
    if v == [] then []
    else (if v[0] == '"' then "\"\"" else [v[0]]) + DoubleQuotes(v[1..])
  }

  /** Doubling quotes neither adds nor removes any other character. */
  lemma {:induction false} DoubleQuotesKeeps(v: string, c: char)
    requires c != '"'
    ensures c in DoubleQuotes(v) <==> c in v
    decreases |v|
  {
    if v != [] {
      DoubleQuotesKeeps(v[1..], c);
      var head := if v[0] == '"' then "\"\"" else [v[0]];
      assert DoubleQuotes(v) == head + DoubleQuotes(v[1..]);
      assert c in head <==> c == v[0];
      assert v == [v[0]] + v[1..];
    }
  }

  /** Escaping keeps a line break exactly where the value had one. */
  lemma EscapeKeepsLineBreaks(v: string)
    ensures '\n' in EscapeField(v) <==> '\n' in v
  {
    DoubleQuotesKeeps(v, '\n');
    if NeedsQuotes(v) {
      assert EscapeField(v) == "\"" + DoubleQuotes(v) + "\"";
    }
  }

  /** A null or undefined column value is written as the empty string. */
  function Render(v: Option<string>): (r: string)
    ensures v.None? ==> r == ""
    ensures v.Some? ==> r == v.value
  {
    v.GetOr("")
  }

  /** The text one field of an exported row takes. */
  function EscapeField(v: string): (r: string)
    ensures !NeedsQuotes(v) ==> r == v
    ensures NeedsQuotes(v) ==> |r| >= 2 && r[0] == '"' && r[|r| - 1] == '"'
  {
    if NeedsQuotes(v) then "\"" + DoubleQuotes(v) + "\"" else v
  }

  function EscapeAll(fields: seq<string>): (r: seq<string>)
    ensures |r| == |fields|
    ensures forall k :: 0 <= k < |fields| ==> r[k] == EscapeField(fields[k])
    decreases |fields|
  {
    if fields == [] then [] else [EscapeField(fields[0])] + EscapeAll(fields[1..])
  }

  /** One record: its escaped fields joined with commas. */
  function FormatRecord(fields: seq<string>): string {
    Join(EscapeAll(fields), ',')
  }

  // ---------------------------------------------------------------------------
  // The reader: the inverse the escaping is written against.
  // ---------------------------------------------------------------------------

  /** The content of a quoted field, read from just after its opening quote:
      `""` stands for one quote and a lone `"` closes the field. Returns the
      content and what follows the closing quote. */
  function ReadQuoted(s: string): (r: (string, string))
    ensures |r.1| <= |s|
    decreases |s|
  {
    if s == [] then ([], [])
    else if s[0] == '"' then
      if |s| > 1 && s[1] == '"' then
        var (content, rest) := ReadQuoted(s[2..]);
        (['"'] + content, rest)
      else ([], s[1..])
    else
      var (content, rest) := ReadQuoted(s[1..]);
      ([s[0]] + content, rest)
  }

  /** An unquoted field: everything up to the next comma, which stays in the rest. */
  function ReadPlain(s: string): (r: (string, string))
    ensures |r.1| <= |s|
    ensures r.1 == [] || r.1[0] == ','
    decreases |s|
  {
    if s == [] then ([], [])
    else if s[0] == ',' then ([], s)
    else
      var (content, rest) := ReadPlain(s[1..]);
      ([s[0]] + content, rest)
  }

  function ReadField(s: string): (r: (string, string))
    ensures |r.1| <= |s|
  {
    if s != [] && s[0] == '"' then ReadQuoted(s[1..]) else ReadPlain(s)
  }

  /** The fields of one record; the character after each field (a comma) is dropped. */
  function ParseRecord(s: string): (r: seq<string>)
    ensures |r| >= 1
    decreases |s|
  {
    var (field, rest) := ReadField(s);
    if rest == [] then [field] else [field] + ParseRecord(rest[1..])
  }

  /** The closing quote ends the content. */
  lemma ReadQuotedClose(rest: string)
    requires rest == [] || rest[0] != '"'
    ensures ReadQuoted(DoubleQuotes([]) + "\"" + rest) == ([], rest)
  {
    var s := DoubleQuotes([]) + "\"" + rest;
    assert s == ['"'] + rest;
    assert s[0] == '"' && s[1..] == rest;
  }

  /** One more character of content, doubled if it is a quote, is read back as itself. */
  lemma ReadQuotedNext(v: string, rest: string)
    requires v != []
    requires ReadQuoted(DoubleQuotes(v[1..]) + "\"" + rest) == (v[1..], rest)
    ensures ReadQuoted(DoubleQuotes(v) + "\"" + rest) == (v, rest)
  {
    var q, d := "\"", DoubleQuotes(v[1..]);
    var head := if v[0] == '"' then q + q else [v[0]];
    assert DoubleQuotes(v) == head + d;
    Regroup(head, d, q, rest);
    ReadQuotedHead(head, v[0], d + q + rest, v[1..], rest);
    HeadTail(v);
  }

  lemma HeadTail(v: string)
    requires v != []
    ensures [v[0]] + v[1..] == v
  {
  }

  lemma ReadQuotedHead(head: string, c: char, tail: string, content: string, rest: string)
    requires head == if c == '"' then "\"\"" else [c]
    requires ReadQuoted(tail) == (content, rest)
    ensures ReadQuoted(head + tail) == ([c] + content, rest)
  {
    var s := head + tail;
    if c == '"' {
      assert s[0] == '"' && s[1] == '"' && s[2..] == tail;
    } else {
      assert s[0] == c && s[1..] == tail;
    }
  }

  lemma {:induction false} ReadQuotedDoubled(v: string, rest: string)
    requires rest == [] || rest[0] != '"'
    ensures ReadQuoted(DoubleQuotes(v) + "\"" + rest) == (v, rest)
    decreases |v|
  {
    if v == [] {
      ReadQuotedClose(rest);
    } else {
      ReadQuotedDoubled(v[1..], rest);
      ReadQuotedNext(v, rest);
    }
  }

  lemma {:induction false} ReadPlainUnquoted(v: string, rest: string)
    requires ',' !in v
    requires rest == [] || rest[0] == ','
    ensures ReadPlain(v + rest) == (v, rest)
    decreases |v|
  {
    if v == [] {
      assert v + rest == rest;
    } else {
      ReadPlainUnquoted(v[1..], rest);
      assert (v + rest)[1..] == v[1..] + rest;
      assert v == [v[0]] + v[1..];
    }
  }

  lemma ReadQuotedField(v: string, rest: string)
    requires NeedsQuotes(v) && (rest == [] || rest[0] == ',')
    ensures ReadField(EscapeField(v) + rest) == (v, rest)
  {
    var q, d := "\"", DoubleQuotes(v);
    var inner := d + q + rest;
    var s := EscapeField(v) + rest;
    ReadQuotedDoubled(v, rest);
    assert EscapeField(v) == q + d + q;
    Regroup(q, d, q, rest);
    assert s[0] == '"' && s[1..] == inner;
  }

  lemma ReadPlainField(v: string, rest: string)
    requires !NeedsQuotes(v) && (rest == [] || rest[0] == ',')
    ensures ReadField(EscapeField(v) + rest) == (v, rest)
  {
    var s := v + rest;
    ReadPlainUnquoted(v, rest);
    assert s == [] || s[0] != '"' by {
      if v != [] {
        assert s[0] == v[0];
      }
    }
  }

  /** Reading an escaped field gives back the value and stops at the separator that follows. */
  lemma ReadEscaped(v: string, rest: string)
    requires rest == [] || rest[0] == ','
    ensures ReadField(EscapeField(v) + rest) == (v, rest)
  {
    if NeedsQuotes(v) {
      ReadQuotedField(v, rest);
    } else {
      ReadPlainField(v, rest);
    }
  }

  /** Reading a formatted record gives back its fields, whatever they contain. */
  lemma {:induction false} ParseFormatRecord(fields: seq<string>)
    requires fields != []
    ensures ParseRecord(FormatRecord(fields)) == fields
    decreases |fields|
  {
    var escaped := EscapeAll(fields);
    if |fields| == 1 {
      ReadEscaped(fields[0], []);
      assert EscapeField(fields[0]) + [] == EscapeField(fields[0]);
    } else {
      var rest := "," + FormatRecord(fields[1..]);
      assert EscapeAll(fields[1..]) == escaped[1..];
      assert FormatRecord(fields) == EscapeField(fields[0]) + rest;
      ReadEscaped(fields[0], rest);
      assert rest[1..] == FormatRecord(fields[1..]);
      ParseFormatRecord(fields[1..]);
      assert fields == [fields[0]] + fields[1..];
    }
  }

  lemma {:induction false} DoubleQuotesAppend(a: string, b: string)
    ensures DoubleQuotes(a + b) == DoubleQuotes(a) + DoubleQuotes(b)
    decreases |a|
  {
    if a == [] {
      assert a + b == b;
    } else {
      assert (a + b)[0] == a[0] && (a + b)[1..] == a[1..] + b;
      DoubleQuotesAppend(a[1..], b);
    }
  }

  lemma DoubleQuotesExample(a: string, b: string)
    requires '"' !in a && '"' !in b
    ensures DoubleQuotes(a + "\"" + b + "\"") == a + "\"\"" + b + "\"\""
  {
    var q := "\"";
    assert DoubleQuotes(q) == q + q by {
      assert q[1..] == [];
    }
    calc {
      DoubleQuotes(a + q + b + q);
      { DoubleQuotesAppend(a + q + b, q); }
      DoubleQuotes(a + q + b) + (q + q);
      { DoubleQuotesAppend(a + q, b); }
      DoubleQuotes(a + q) + b + (q + q);
      { DoubleQuotesAppend(a, q); }
      a + (q + q) + b + (q + q);
    }
  }

  /** A value with a comma and two quoted-off parts is enclosed in quotes, each quote doubled. */
  lemma EscapeQuotedPair(a: string, b: string)
    requires '"' !in a && '"' !in b && ',' in a
    ensures EscapeField(a + "\"" + b + "\"") == "\"" + (a + "\"\"" + b + "\"\"") + "\""
  {
    DoubleQuotesExample(a, b);
  }

  lemma ExampleParts()
    ensures "Widget, \"Pro\"" == "Widget, " + "\"" + "Pro" + "\""
    ensures '"' !in "Widget, " && '"' !in "Pro" && ',' in "Widget, "
  {
    assert "Widget, "[6] == ',';
  }

  lemma ExampleText()
    ensures "\"" + ("Widget, " + "\"\"" + "Pro" + "\"\"") + "\"" == "\"Widget, \"\"Pro\"\"\""
  {
  }

  /** The outcome of the escaping on the export example `Widget, "Pro"`. */
  lemma EscapeExample()
    ensures EscapeField("Widget, \"Pro\"") == "\"Widget, \"\"Pro\"\"\""
  {
    ExampleParts();
    EscapeQuotedPair("Widget, ", "Pro");
    ExampleText();
  }
}
