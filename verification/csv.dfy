/**
  The quote-aware CSV tokenizer that `ParseCSVAndCreateRecords` runs over the
  view export (GridlyLocalizationServiceProvider.cpp), separated from the
  record logic.

  The tokenizer is a loose form of section 2 of RFC 4180: outside quotes a
  `"` opens a quoted section (the quote itself is not kept), `,` ends a
  field and CR or LF ends a line; inside quotes `""` stands for one `"`, a
  lone `"` closes the section, and `,`, CR and LF are ordinary content.

  Its partner is `EncodeTable`, a writer that quotes every field and doubles
  embedded quotes; the round-trip lemmas show the tokenizer returns exactly
  the written lines, whatever characters the fields hold.
 */
module Csv {
  import opened Strings

  const Quote: char := '"'
  const Delimiter: char := ','
  const LF: char := '\n'
  const CR: char := '\r'

  /**
    The loop state: `bInsideQuotes`, `CurrentField`, `Fields`, and the
    field lists of the lines ended so far.
   */
  datatype Tok = Tok(inQuotes: bool, field: string, fields: seq<string>, lines: seq<seq<string>>)

  function Initial(): Tok { Tok(false, "", [], []) }

  /**
    An unquoted CR or LF: the pending field is added unless the line is
    still completely empty, and the line's field list is handed on.
   */
  function EndLine(st: Tok): Tok {
    var fields := if |st.fields| > 0 || st.field != "" then st.fields + [st.field] else st.fields;
    Tok(st.inQuotes, "", [], st.lines + [fields])
  }

  /** One turn of the loop: how many characters it consumed and the state it left. */
  datatype Stepped = Stepped(consumed: nat, next: Tok)

  function Step(s: string, st: Tok): (r: Stepped)
    requires |s| > 0
    ensures 1 <= r.consumed <= |s|
  {
    if st.inQuotes then
      if s[0] == Quote then
        if |s| > 1 && s[1] == Quote then Stepped(2, st.(field := st.field + [Quote]))
        else Stepped(1, st.(inQuotes := false))
      else Stepped(1, st.(field := st.field + [s[0]]))
    else if s[0] == Quote then Stepped(1, st.(inQuotes := true))
    else if s[0] == Delimiter then Stepped(1, st.(fields := st.fields + [st.field], field := ""))
    else if s[0] == LF || s[0] == CR then Stepped(1, EndLine(st))
    else Stepped(1, st.(field := st.field + [s[0]]))
  }

  /** The character loop over the remaining input `s`. */
  function Run(s: string, st: Tok): Tok
    decreases |s|
  {
    if |s| == 0 then st
    else
      var t := Step(s, st);
      Run(s[t.consumed..], t.next)
  }

  /**
    What a full scan leaves: the field lists of every terminated line, and
    the unterminated last line, which exists when fields or characters are
    pending at the end of the input.
   */
  datatype Scan = Scan(lines: seq<seq<string>>, last: Option<seq<string>>)

  function Tokenize(s: string): Scan {
    var st := Run(s, Initial());
    Scan(st.lines,
         if |st.fields| > 0 || st.field != "" then Some(st.fields + [st.field]) else None)
  }

  // ---------------------------------------------------------------------
  // The writer
  // ---------------------------------------------------------------------

  /** Field content with every `"` doubled. */
  function Escape(f: string): string {
    if |f| == 0 then [] else (if f[0] == Quote then [Quote, Quote] else [f[0]]) + Escape(f[1..])
  }

  function EncodeField(f: string): string {
    [Quote] + Escape(f) + [Quote]
  }

  function EncodeFields(r: seq<string>): string
    requires |r| > 0
  {
    if |r| == 1 then EncodeField(r[0]) else EncodeField(r[0]) + [Delimiter] + EncodeFields(r[1..])
  }

  function LineEnd(crlf: bool): string {
    if crlf then [CR, LF] else [LF]
  }

  function EncodeRow(r: seq<string>, crlf: bool): string {
    (if |r| == 0 then [] else EncodeFields(r)) + LineEnd(crlf)
  }

  function EncodeTable(rows: seq<seq<string>>, crlf: bool): string {
    if |rows| == 0 then [] else EncodeRow(rows[0], crlf) + EncodeTable(rows[1..], crlf)
  }

  /**
    The lines a reader sees for `rows`: with CRLF endings the LF after each
    CR ends one more, empty, line.
   */
  function LinesOf(rows: seq<seq<string>>, crlf: bool): seq<seq<string>> {
    if |rows| == 0 then []
    else [rows[0]] + (if crlf then [[]] else []) + LinesOf(rows[1..], crlf)
  }

  /**
    The one row shape the writer cannot express: a single empty field is
    written as `""`, which reads back as an empty line.
   */
  predicate Writable(rows: seq<seq<string>>) {
    forall i :: 0 <= i < |rows| ==> rows[i] != [""]
  }

  // ---------------------------------------------------------------------
  // Round trip
  // ---------------------------------------------------------------------

  /** One unfolding of the loop. */
  lemma RunOne(s: string, st: Tok)
    requires |s| > 0
    ensures Run(s, st) == Run(s[Step(s, st).consumed..], Step(s, st).next)
  {
  }

  /** Outside quotes, a quote opens a quoted section. */
  lemma RunOpenQuote(rest: string, st: Tok)
    requires !st.inQuotes
    ensures Run([Quote] + rest, st) == Run(rest, st.(inQuotes := true))
  {
    RunOne([Quote] + rest, st);
    assert ([Quote] + rest)[1..] == rest;
  }

  /** Inside quotes, a quote not followed by another closes the section. */
  lemma RunCloseQuote(rest: string, st: Tok)
    requires st.inQuotes
    requires |rest| == 0 || rest[0] != Quote
    ensures Run([Quote] + rest, st) == Run(rest, st.(inQuotes := false))
  {
    RunOne([Quote] + rest, st);
    assert ([Quote] + rest)[1..] == rest;
  }

  /** Inside quotes, a doubled quote adds one quote to the field. */
  lemma RunDoubledQuote(rest: string, st: Tok)
    requires st.inQuotes
    ensures Run([Quote, Quote] + rest, st) == Run(rest, st.(field := st.field + [Quote]))
  {
    RunOne([Quote, Quote] + rest, st);
    assert ([Quote, Quote] + rest)[2..] == rest;
  }

  /** Inside quotes, any other character is field content. */
  lemma RunQuotedChar(c: char, rest: string, st: Tok)
    requires st.inQuotes && c != Quote
    ensures Run([c] + rest, st) == Run(rest, st.(field := st.field + [c]))
  {
    RunOne([c] + rest, st);
    assert ([c] + rest)[1..] == rest;
  }

  /** Outside quotes, a delimiter ends the field. */
  lemma RunDelimiter(rest: string, st: Tok)
    requires !st.inQuotes
    ensures Run([Delimiter] + rest, st) == Run(rest, st.(fields := st.fields + [st.field], field := ""))
  {
    RunOne([Delimiter] + rest, st);
    assert ([Delimiter] + rest)[1..] == rest;
  }

  /** Outside quotes, CR or LF ends the line. */
  lemma RunLineBreak(c: char, rest: string, st: Tok)
    requires !st.inQuotes && (c == CR || c == LF)
    ensures Run([c] + rest, st) == Run(rest, EndLine(st))
  {
    RunOne([c] + rest, st);
    assert ([c] + rest)[1..] == rest;
  }

  /** Appending a sequence's head and then its tail appends the sequence. */
  lemma AppendFirst<T>(a: seq<T>, s: seq<T>)
    requires |s| > 0
    ensures a + [s[0]] + s[1..] == a + s
  {
  }

  /** The same, for all but the last element. */
  lemma AppendFirstOfInit<T>(a: seq<T>, s: seq<T>)
    requires |s| > 1
    ensures a + [s[0]] + s[1..][..|s| - 2] == a + s[..|s| - 1]
  {
  }

  /** Inside quotes, the escape of a field's first character adds that character. */
  lemma RunEscapedChar(f: string, rest: string, st: Tok)
    requires st.inQuotes && |f| > 0
    ensures Run(Escape(f) + [Quote] + rest, st) == Run(Escape(f[1..]) + [Quote] + rest, st.(field := st.field + [f[0]]))
  {
    var body := Escape(f[1..]) + [Quote] + rest;
    if f[0] == Quote {
      assert Escape(f) + [Quote] + rest == [Quote, Quote] + body;
      RunDoubledQuote(body, st);
    } else {
      assert Escape(f) + [Quote] + rest == [f[0]] + body;
      RunQuotedChar(f[0], body, st);
    }
  }

  /**
    Inside quotes, an escaped body followed by its closing quote adds the
    body verbatim to the field and leaves quoted mode.
   */
  lemma {:induction false} RunQuotedBody(f: string, rest: string, st: Tok)
    requires st.inQuotes
    requires |rest| == 0 || rest[0] != Quote
    ensures Run(Escape(f) + [Quote] + rest, st) == Run(rest, st.(field := st.field + f, inQuotes := false))
    decreases |f|
  {
    if |f| == 0 {
      assert Escape(f) + [Quote] + rest == [Quote] + rest;
      RunCloseQuote(rest, st);
      assert st.field + f == st.field;
    } else {
      var body := Escape(f[1..]) + [Quote] + rest;
      var st' := st.(field := st.field + [f[0]]);
      RunEscapedChar(f, rest, st);
      assert Run(body, st') == Run(rest, st'.(field := st'.field + f[1..], inQuotes := false)) by {
        RunQuotedBody(f[1..], rest, st');
      }
      AppendFirst(st.field, f);
    }
  }

  /** A written field, read outside quotes, is appended verbatim to the current field. */
  lemma RunField(f: string, rest: string, st: Tok)
    requires !st.inQuotes
    requires |rest| == 0 || rest[0] != Quote
    ensures Run(EncodeField(f) + rest, st) == Run(rest, st.(field := st.field + f))
  {
    var body := Escape(f) + [Quote] + rest;
    assert EncodeField(f) + rest == [Quote] + body;
    RunOpenQuote(body, st);
    RunQuotedBody(f, rest, st.(inQuotes := true));
  }

  /** The first of several written fields is completed by the delimiter after it. */
  lemma RunFirstField(r: seq<string>, rest: string, st: Tok)
    requires |r| > 1 && !st.inQuotes && st.field == ""
    ensures Run(EncodeFields(r) + rest, st)
         == Run(EncodeFields(r[1..]) + rest, st.(fields := st.fields + [r[0]], field := ""))
  {
    var after := EncodeFields(r[1..]) + rest;
    var tail := [Delimiter] + after;
    assert EncodeFields(r) + rest == EncodeField(r[0]) + tail;
    RunField(r[0], tail, st);
    assert st.field + r[0] == r[0];
    RunDelimiter(after, st.(field := r[0]));
  }

  /** The written fields of a line become the pending field list and field. */
  lemma {:induction false} RunFields(r: seq<string>, rest: string, st: Tok)
    requires |r| > 0 && !st.inQuotes && st.field == ""
    requires |rest| == 0 || rest[0] != Quote
    ensures Run(EncodeFields(r) + rest, st)
         == Run(rest, st.(fields := st.fields + r[..|r| - 1], field := r[|r| - 1]))
    decreases |r|
  {
    if |r| == 1 {
      RunField(r[0], rest, st);
      assert st.fields + r[..0] == st.fields;
      assert st.field + r[0] == r[0];
    } else {
      var after := EncodeFields(r[1..]) + rest;
      var st' := st.(fields := st.fields + [r[0]], field := "");
      RunFirstField(r, rest, st);
      RunFields(r[1..], rest, st');
      AppendFirstOfInit(st.fields, r);
      assert st'.(fields := st'.fields + r[1..][..|r| - 2], field := r[1..][|r| - 2])
          == st.(fields := st.fields + r[..|r| - 1], field := r[|r| - 1]);
    }
  }

  /** The line a written row leaves pending just before its line break. */
  function Pending(r: seq<string>, lines: seq<seq<string>>): Tok {
    if |r| == 0 then Tok(false, "", [], lines) else Tok(false, r[|r| - 1], r[..|r| - 1], lines)
  }

  /** The fields of a written line, up to its line break, leave the line pending. */
  lemma RunLineBody(r: seq<string>, eol: string, lines: seq<seq<string>>)
    requires |eol| > 0 && eol[0] != Quote
    ensures Run((if |r| == 0 then [] else EncodeFields(r)) + eol, Tok(false, "", [], lines)) == Run(eol, Pending(r, lines))
  {
    if |r| > 0 {
      RunFields(r, eol, Tok(false, "", [], lines));
      assert [] + r[..|r| - 1] == r[..|r| - 1];
    } else {
      assert [] + eol == eol;
    }
  }

  /** Ending the pending line records exactly the row. */
  lemma EndPending(r: seq<string>, lines: seq<seq<string>>)
    requires r != [""]
    ensures EndLine(Pending(r, lines)) == Tok(false, "", [], lines + [r])
  {
    if |r| > 0 {
      assert r[..|r| - 1] + [r[|r| - 1]] == r;
      if |r| == 1 {
        assert r == [r[0]];
      }
    }
  }

  /** The line break after a pending line ends it, and with CRLF ends one more, empty, line. */
  lemma RunLineEnd(r: seq<string>, crlf: bool, rest: string, lines: seq<seq<string>>)
    requires r != [""]
    ensures Run(LineEnd(crlf) + rest, Pending(r, lines))
         == Run(rest, Tok(false, "", [], lines + [r] + (if crlf then [[]] else [])))
  {
    var ended := Tok(false, "", [], lines + [r]);
    EndPending(r, lines);
    if crlf {
      assert LineEnd(crlf) + rest == [CR] + ([LF] + rest);
      RunLineBreak(CR, [LF] + rest, Pending(r, lines));
      RunLineBreak(LF, rest, ended);
    } else {
      assert LineEnd(crlf) + rest == [LF] + rest;
      RunLineBreak(LF, rest, Pending(r, lines));
      assert lines + [r] + [] == lines + [r];
    }
  }

  /** A written line moves the tokenizer from one line boundary to the next. */
  lemma RunRow(r: seq<string>, crlf: bool, rest: string, lines: seq<seq<string>>)
    requires r != [""]
    ensures Run(EncodeRow(r, crlf) + rest, Tok(false, "", [], lines))
         == Run(rest, Tok(false, "", [], lines + [r] + (if crlf then [[]] else [])))
  {
    var eol := LineEnd(crlf) + rest;
    assert EncodeRow(r, crlf) + rest == (if |r| == 0 then [] else EncodeFields(r)) + eol;
    RunLineBody(r, eol, lines);
    RunLineEnd(r, crlf, rest, lines);
  }

  /** The first row of a written table, then the rest of the table. */
  lemma EncodeTableCons(rows: seq<seq<string>>, crlf: bool, rest: string)
    requires |rows| > 0
    ensures EncodeTable(rows, crlf) + rest == EncodeRow(rows[0], crlf) + (EncodeTable(rows[1..], crlf) + rest)
  {
  }

  /** The lines of the first row, then the lines of the rest. */
  lemma LinesOfCons(rows: seq<seq<string>>, crlf: bool, lines: seq<seq<string>>)
    requires |rows| > 0
    ensures lines + [rows[0]] + (if crlf then [[]] else []) + LinesOf(rows[1..], crlf) == lines + LinesOf(rows, crlf)
  {
  }

  lemma {:induction false} RunTable(rows: seq<seq<string>>, crlf: bool, rest: string, lines: seq<seq<string>>)
    requires Writable(rows)
    ensures Run(EncodeTable(rows, crlf) + rest, Tok(false, "", [], lines))
         == Run(rest, Tok(false, "", [], lines + LinesOf(rows, crlf)))
  {
    if |rows| == 0 {
      assert [] + rest == rest;
      assert lines + [] == lines;
    } else {
      var lines' := lines + [rows[0]] + (if crlf then [[]] else []);
      EncodeTableCons(rows, crlf, rest);
      assert rows[0] != [""];
      RunRow(rows[0], crlf, EncodeTable(rows[1..], crlf) + rest, lines);
      assert Writable(rows[1..]) by {
        assert forall i :: 0 <= i < |rows[1..]| ==> rows[1..][i] == rows[i + 1];
      }
      RunTable(rows[1..], crlf, rest, lines');
      LinesOfCons(rows, crlf, lines);
    }
  }

  /**
    Round trip: every line of a written table reads back as exactly its
    fields, including fields holding quotes, delimiters and line breaks.
   */
  lemma TokenizeTable(rows: seq<seq<string>>, crlf: bool)
    requires Writable(rows)
    ensures Tokenize(EncodeTable(rows, crlf)) == Scan(LinesOf(rows, crlf), None)
  {
    RunTable(rows, crlf, [], []);
    assert EncodeTable(rows, crlf) + [] == EncodeTable(rows, crlf);
    assert [] + LinesOf(rows, crlf) == LinesOf(rows, crlf);
  }

  /** A last line without a terminator is still returned, as the pending line. */
  lemma TokenizeUnterminated(rows: seq<seq<string>>, crlf: bool, last: seq<string>)
    requires Writable(rows) && |last| > 0 && last != [""]
    ensures Tokenize(EncodeTable(rows, crlf) + EncodeFields(last)) == Scan(LinesOf(rows, crlf), Some(last))
  {
    var lines := LinesOf(rows, crlf);
    RunTable(rows, crlf, EncodeFields(last), []);
    assert [] + lines == lines;
    RunFields(last, [], Tok(false, "", [], lines));
    assert EncodeFields(last) + [] == EncodeFields(last);
    assert [] + last[..|last| - 1] + [last[|last| - 1]] == last;
  }
}
