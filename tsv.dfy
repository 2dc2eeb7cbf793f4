/** The TSV side of the codec: the export format `ExtractMsg` produces
    with `-tsv` (one double-quoted entry per row, Program.cs:432-435, rows
    joined by newlines, Program.cs:153) and the splitter at the start of
    `ConvertToMsg` that reads such a file back (Program.cs:638-663): every
    non-empty line is kept followed by the line-break token, an entry
    closes on a line whose last character is a double quote, and the
    quotes are then removed. */
module Tsv {
  import opened Seqs

  /** The escape the encoder turns into the line-break opcode EE A3 BF. */
  const LineBreakToken: string := "{EEA3BF}"

  /** Every newline replaced by the line-break token. */
  function ReplaceNewlines(s: string): string
  {
    if s == [] then "" else (if s[0] == '\n' then LineBreakToken else [s[0]]) + ReplaceNewlines(s[1..])
  }

  /** A text without newlines is left as it is. */
  lemma {:induction false} ReplaceNewlinesId(s: string)
    requires forall i :: 0 <= i < |s| ==> s[i] != '\n'
    ensures ReplaceNewlines(s) == s
  {
    if s != [] {
      ReplaceNewlinesId(s[1..]);
      assert s == [s[0]] + s[1..];
    }
  }

  lemma {:induction false} ReplaceNewlinesAppend(a: string, b: string)
    ensures ReplaceNewlines(a + b) == ReplaceNewlines(a) + ReplaceNewlines(b)
  {
    if a != [] {
      assert (a + b)[1..] == a[1..] + b;
      ReplaceNewlinesAppend(a[1..], b);
    } else {
      assert a + b == b;
    }
  }

  /** `Replace("\"", "")`. */
  function RemoveQuotes(s: string): string
  {
    if s == [] then "" else (if s[0] == '"' then "" else [s[0]]) + RemoveQuotes(s[1..])
  }

  /** No quote is left, and a text without quotes is left as it is. */
  lemma {:induction false} RemoveQuotesSpec(s: string)
    ensures forall i :: 0 <= i < |RemoveQuotes(s)| ==> RemoveQuotes(s)[i] != '"'
    ensures (forall i :: 0 <= i < |s| ==> s[i] != '"') ==> RemoveQuotes(s) == s
  {
    if s != [] {
      RemoveQuotesSpec(s[1..]);
      assert s == [s[0]] + s[1..];
    }
  }

  lemma {:induction false} RemoveQuotesAppend(a: string, b: string)
    ensures RemoveQuotes(a + b) == RemoveQuotes(a) + RemoveQuotes(b)
  {
    if a != [] {
      assert (a + b)[1..] == a[1..] + b;
      RemoveQuotesAppend(a[1..], b);
    } else {
      assert a + b == b;
    }
  }

  // ---------------------------------------------------------------------
  // The splitter

  /** The entries closed so far and the entry being gathered
      (`currentTextEntry`). */
  datatype Splitter = Splitter(entries: seq<string>, current: string)

  /** A line whose last character is a double quote ends an entry. */
  predicate Closes(line: string)
  {
    line != "" && line[|line| - 1] == '"'
  }

  /** One pass of the reading loop. */
  function Feed(st: Splitter, line: string): Splitter
  {
    if line == "" then st
    else
      var cur := st.current + line + LineBreakToken;
      if Closes(line) then Splitter(st.entries + [RemoveQuotes(cur)], "")
      else Splitter(st.entries, cur)
  }

  function FeedAll(st: Splitter, lines: seq<string>): Splitter
    decreases |lines|
  {
    if lines == [] then st else FeedAll(Feed(st, lines[0]), lines[1..])
  }

  /** The entries the splitter gathers from the lines of a file. */
  function SplitEntries(lines: seq<string>): seq<string>
  {
    FeedAll(Splitter([], ""), lines).entries
  }

  lemma {:induction false} FeedAllAppend(st: Splitter, a: seq<string>, b: seq<string>)
    ensures FeedAll(st, a + b) == FeedAll(FeedAll(st, a), b)
    decreases |a|
  {
    if a == [] {
      assert a + b == b;
    } else {
      assert (a + b)[0] == a[0] && (a + b)[1..] == a[1..] + b;
      FeedAllAppend(Feed(st, a[0]), a[1..], b);
    }
  }

  /** The reading loop (Program.cs:641-662) over the lines `ReadLine`
      returns. */
  method SplitTsvEntries(lines: seq<string>) returns (romanjiEntries: seq<string>)
    ensures romanjiEntries == SplitEntries(lines)
  {
    romanjiEntries := [];
    var currentTextEntry := "";
    var n := 0;
    while n < |lines|
      invariant 0 <= n <= |lines|
      invariant Splitter(romanjiEntries, currentTextEntry) == FeedAll(Splitter([], ""), lines[..n])
    {
      var line := lines[n];
      FeedAllAppend(Splitter([], ""), lines[..n], [line]);
      assert lines[..n + 1] == lines[..n] + [line];
      n := n + 1;
      if line == "" {
        continue;
      }
      currentTextEntry := currentTextEntry + line + LineBreakToken;
      if line[|line| - 1] == '"' {
        romanjiEntries := romanjiEntries + [RemoveQuotes(currentTextEntry)];
        currentTextEntry := "";
      }
    }
    assert lines[..n] == lines;
  }

  /** Entries already closed stay first, in order, whatever follows. */
  lemma {:induction false} FeedAllKeeps(st: Splitter, lines: seq<string>)
    ensures FeedAll(st, lines).entries == st.entries + FeedAll(Splitter([], st.current), lines).entries
    decreases |lines|
  {
    if lines == [] {
      assert st.entries + [] == st.entries;
    } else {
      var s0 := Splitter([], st.current);
      var a := Feed(st, lines[0]);
      var b := Feed(s0, lines[0]);
      assert a.entries == st.entries + b.entries && a.current == b.current;
      FeedAllKeeps(a, lines[1..]);
      FeedAllKeeps(b, lines[1..]);
    }
  }

  /** Empty lines are skipped. */
  lemma EmptyLinesSkipped(a: seq<string>, b: seq<string>)
    ensures SplitEntries(a + [""] + b) == SplitEntries(a + b)
  {
    var st := Splitter([], "");
    FeedAllAppend(st, a + [""], b);
    FeedAllAppend(st, a, [""]);
    FeedAllAppend(st, a, b);
  }

  /** Lines none of which closes an entry only extend the pending entry. */
  lemma {:induction false} OpenLines(st: Splitter, lines: seq<string>)
    requires forall i :: 0 <= i < |lines| ==> !Closes(lines[i])
    ensures FeedAll(st, lines).entries == st.entries
    decreases |lines|
  {
    if lines != [] {
      OpenLines(Feed(st, lines[0]), lines[1..]);
    }
  }

  /** An unterminated tail is dropped: lines after the last closing line
      add no entry. */
  lemma UnterminatedTailDropped(a: seq<string>, b: seq<string>)
    requires forall i :: 0 <= i < |b| ==> !Closes(b[i])
    ensures SplitEntries(a + b) == SplitEntries(a)
  {
    FeedAllAppend(Splitter([], ""), a, b);
    OpenLines(FeedAll(Splitter([], ""), a), b);
  }

  // ---------------------------------------------------------------------
  // Lines of a text, as `ReadLine` returns them

  /** The text cut at every newline. */
  function Lines(s: string): (r: seq<string>)
    ensures |r| >= 1
  {
    if s == "" then [""]
    else
      var tail := Lines(s[1..]);
      if s[0] == '\n' then [""] + tail else [[s[0]] + tail[0]] + tail[1..]
  }

  /** `string.Join("\n", ls)`. */
  function JoinLines(ls: seq<string>): string
    requires |ls| >= 1
  {
    if |ls| == 1 then ls[0] else ls[0] + "\n" + JoinLines(ls[1..])
  }

  lemma {:induction false} JoinLinesCons(c: char, ls: seq<string>)
    requires |ls| >= 1
    ensures JoinLines([[c] + ls[0]] + ls[1..]) == [c] + JoinLines(ls)
  {
    var ms := [[c] + ls[0]] + ls[1..];
    if |ls| > 1 {
      assert ms[1..] == ls[1..];
    }
  }

  /** Cutting a text into lines and joining them gives the text back. */
  lemma {:induction false} JoinOfLines(s: string)
    ensures JoinLines(Lines(s)) == s
  {
    if s != "" {
      var tail := Lines(s[1..]);
      JoinOfLines(s[1..]);
      if s[0] == '\n' {
        assert ([""] + tail)[1..] == tail;
        assert s == "\n" + s[1..];
      } else {
        JoinLinesCons(s[0], tail);
        assert s == [s[0]] + s[1..];
      }
    }
  }

  /** No line holds a newline, nor a character the text does not hold. */
  lemma {:induction false} LinesAvoid(s: string, c: char)
    requires forall i :: 0 <= i < |s| ==> s[i] != c
    ensures forall i, j :: 0 <= i < |Lines(s)| && 0 <= j < |Lines(s)[i]| ==> Lines(s)[i][j] != c && Lines(s)[i][j] != '\n'
  {
    if s != "" {
      LinesAvoid(s[1..], c);
      var tail := Lines(s[1..]);
      if s[0] != '\n' {
        var first := [s[0]] + tail[0];
        assert forall j :: 1 <= j < |first| ==> first[j] == tail[0][j - 1];
        assert forall i :: 1 <= i < |Lines(s)| ==> Lines(s)[i] == tail[i];
      } else {
        assert forall i :: 1 <= i < |Lines(s)| ==> Lines(s)[i] == tail[i - 1];
      }
    }
  }

  /** Joining two texts with a newline joins their lines. */
  lemma {:induction false} LinesJoin2(a: string, b: string)
    ensures Lines(a + "\n" + b) == Lines(a) + Lines(b)
  {
    var s := a + "\n" + b;
    if a == "" {
      assert s == "\n" + b && s[1..] == b;
    } else {
      assert s[0] == a[0] && s[1..] == a[1..] + "\n" + b;
      LinesJoin2(a[1..], b);
      var t := Lines(a[1..]);
      if a[0] != '\n' {
        assert (t + Lines(b))[0] == t[0];
        assert (t + Lines(b))[1..] == t[1..] + Lines(b);
      }
    }
  }

  /** The lines with c appended to the last one. */
  function AppendLast(ls: seq<string>, c: char): (r: seq<string>)
    requires |ls| >= 1
    ensures |r| == |ls|
  {
    ls[..|ls| - 1] + [ls[|ls| - 1] + [c]]
  }

  lemma {:induction false} LinesSnoc(s: string, c: char)
    requires c != '\n'
    ensures Lines(s + [c]) == AppendLast(Lines(s), c)
  {
    if s == "" {
      assert s + [c] == [c] && [c][1..] == "";
      assert Lines([c]) == [[c] + ""] + [""][1..];
      assert AppendLast([""], c) == [""][..0] + ["" + [c]];
      assert [c] + "" == "" + [c] == [c];
    } else {
      assert (s + [c])[0] == s[0] && (s + [c])[1..] == s[1..] + [c];
      LinesSnoc(s[1..], c);
      if s[0] == '\n' {
        AppendLastCons("", Lines(s[1..]), c);
      } else {
        AppendLastJoinFirst(s[0], Lines(s[1..]), c);
      }
    }
  }

  /** A line put in front is left alone. */
  lemma AppendLastCons(l: string, ls: seq<string>, c: char)
    requires |ls| >= 1
    ensures AppendLast([l] + ls, c) == [l] + AppendLast(ls, c)
  {
    assert ([l] + ls)[..|ls|] == [l] + ls[..|ls| - 1];
  }

  /** A character put in front of the first line stays in front of it. */
  lemma AppendLastJoinFirst(x: char, ls: seq<string>, c: char)
    requires |ls| >= 1
    ensures AppendLast([[x] + ls[0]] + ls[1..], c) == [[x] + AppendLast(ls, c)[0]] + AppendLast(ls, c)[1..]
  {
    if |ls| == 1 {
      assert [[x] + ls[0]] + ls[1..] == [[x] + ls[0]];
      assert AppendLast(ls, c) == [ls[0] + [c]];
      assert [x] + ls[0] + [c] == [x] + (ls[0] + [c]);
    } else {
      assert AppendLast(ls, c)[0] == ls[0] && AppendLast(ls, c)[1..] == AppendLast(ls[1..], c);
      AppendLastCons([x] + ls[0], ls[1..], c);
    }
  }


  // ---------------------------------------------------------------------
  // The export format read back

  /** One TSV row as written by the exporter. */
  function Quote(t: string): string
  {
    "\"" + t + "\""
  }

  /** The text of a `-tsv` export of the given entries. */
  function ExportTsv(es: seq<string>): string
  {
    if es == [] then "" else if |es| == 1 then Quote(es[0]) else Quote(es[0]) + "\n" + ExportTsv(es[1..])
  }

  /** Each line followed by the line-break token. */
  function Terminated(ls: seq<string>): string
  {
    if ls == [] then "" else ls[0] + LineBreakToken + Terminated(ls[1..])
  }

  lemma {:induction false} TerminatedSnoc(ls: seq<string>, l: string)
    ensures Terminated(ls + [l]) == Terminated(ls) + l + LineBreakToken
  {
    if ls == [] {
      assert [] + [l] == [l];
    } else {
      assert (ls + [l])[1..] == ls[1..] + [l];
      TerminatedSnoc(ls[1..], l);
    }
  }

  /** The newlines of a text as line-break tokens, one more token at the
      end: the lines each followed by the token. */
  lemma {:induction false} TerminatedLines(s: string)
    ensures Terminated(Lines(s)) == ReplaceNewlines(s) + LineBreakToken
  {
    if s != "" {
      TerminatedLines(s[1..]);
      if s[0] == '\n' {
        assert ([""] + Lines(s[1..]))[1..] == Lines(s[1..]);
      } else {
        TerminatedJoinFirst(s[0], Lines(s[1..]));
        Assoc([s[0]], ReplaceNewlines(s[1..]), LineBreakToken);
      }
    }
  }

  /** A character put in front of the first line goes in front of the
      terminated text. */
  lemma TerminatedJoinFirst(c: char, tail: seq<string>)
    requires |tail| >= 1
    ensures Terminated([[c] + tail[0]] + tail[1..]) == [c] + Terminated(tail)
  {
    assert ([[c] + tail[0]] + tail[1..])[1..] == tail[1..];
    Assoc([c], tail[0], LineBreakToken);
    Assoc([c], tail[0] + LineBreakToken, Terminated(tail[1..]));
  }

  /** Lines that close nothing, then one that closes: one entry, made of
      the pending text and every line followed by the token, unquoted. */
  lemma {:induction false} FeedOpen(st: Splitter, ls: seq<string>)
    requires forall i :: 0 <= i < |ls| ==> ls[i] != "" && !Closes(ls[i])
    ensures FeedAll(st, ls) == Splitter(st.entries, st.current + Terminated(ls))
    decreases |ls|
  {
    if ls != [] {
      assert Feed(st, ls[0]) == Splitter(st.entries, st.current + ls[0] + LineBreakToken);
      FeedOpen(Feed(st, ls[0]), ls[1..]);
      Assoc(st.current + ls[0], LineBreakToken, Terminated(ls[1..]));
      Assoc(st.current, ls[0], LineBreakToken + Terminated(ls[1..]));
      Assoc(ls[0], LineBreakToken, Terminated(ls[1..]));
    }
  }

  lemma FeedAllOne(st: Splitter, l: string)
    ensures FeedAll(st, [l]) == Feed(st, l)
  {
    assert [l][1..] == [];
  }

  /** The open lines then the closing one. */
  lemma FeedEntryMid(st: Splitter, ls: seq<string>)
    requires |ls| >= 1
    requires forall i :: 0 <= i < |ls| - 1 ==> ls[i] != "" && !Closes(ls[i])
    ensures FeedAll(st, ls) == Feed(Splitter(st.entries, st.current + Terminated(ls[..|ls| - 1])), ls[|ls| - 1])
  {
    var n := |ls| - 1;
    var init := ls[..n];
    var mid := Splitter(st.entries, st.current + Terminated(init));
    assert ls == init + [ls[n]];
    FeedAllAppend(st, init, [ls[n]]);
    FeedOpen(st, init);
    FeedAllOne(mid, ls[n]);
  }

  lemma TerminatedLast(ls: seq<string>)
    requires |ls| >= 1
    ensures Terminated(ls[..|ls| - 1]) + ls[|ls| - 1] + LineBreakToken == Terminated(ls)
  {
    var n := |ls| - 1;
    SplitLast(ls);
    TerminatedSnoc(ls[..n], ls[n]);
  }

  lemma FeedEntry(st: Splitter, ls: seq<string>)
    requires |ls| >= 1 && Closes(ls[|ls| - 1])
    requires forall i :: 0 <= i < |ls| - 1 ==> ls[i] != "" && !Closes(ls[i])
    ensures FeedAll(st, ls) == Splitter(st.entries + [RemoveQuotes(st.current + Terminated(ls))], "")
  {
    var n := |ls| - 1;
    FeedEntryMid(st, ls);
    TerminatedLast(ls);
    var t := Terminated(ls[..n]);
    Assoc(st.current, t, ls[n]);
    Assoc(st.current, t + ls[n], LineBreakToken);
    assert st.current + t + ls[n] + LineBreakToken == st.current + Terminated(ls);
  }

  /** The entries the exporter can write so that the splitter gives them
      back: no double quote, no carriage return (which `ReadLine` also
      cuts at), and no empty line but possibly the last (empty lines are
      skipped on reading, and a first line reading just `"` would close
      the entry at once). */
  predicate Exportable(t: string)
  {
    (forall i :: 0 <= i < |t| ==> t[i] != '"' && t[i] != '\r') &&
    forall i :: 0 <= i < |Lines(t)| - 1 ==> Lines(t)[i] != ""
  }

  /** The lines of a quoted row are the lines of the text, the first
      opened by a quote and the last closed by one. */
  lemma LinesOfQuote(t: string)
    ensures var l := Lines(t);
            var l2 := AppendLast(l, '"');
            Lines(Quote(t)) == ["\"" + l2[0]] + l2[1..]
  {
    var q: string := "\"";
    LinesSnoc(t, '"');
    assert Quote(t) == q + (t + q) && (q + (t + q))[1..] == t + q;
  }

  /** In a quoted row only the last line closes, and no line is empty. */
  lemma RowShape(t: string)
    requires Exportable(t)
    ensures var ls := Lines(Quote(t));
            Closes(ls[|ls| - 1]) && forall i :: 0 <= i < |ls| - 1 ==> ls[i] != "" && !Closes(ls[i])
  {
    var q: string := "\"";
    var l := Lines(t);
    var m := |l| - 1;
    LinesAvoid(t, '"');
    LinesOfQuote(t);
    var l2 := AppendLast(l, '"');
    var ls := Lines(Quote(t));
    assert |ls| == |l|;
    forall i | 0 <= i < m
      ensures ls[i] != "" && !Closes(ls[i])
    {
      assert l[i] != "";
      assert l2[i] == l[i];
      if i == 0 {
        assert ls[0] == q + l[0];
        assert ls[0][|ls[0]| - 1] == l[0][|l[0]| - 1];
      } else {
        assert ls[i] == l[i];
      }
    }
    if m == 0 {
      assert ls[0] == q + (l[0] + q);
    } else {
      assert ls[m] == l[m] + q;
    }
  }

  /** The text the splitter gathers from a quoted row, before the quotes
      are removed. */
  lemma RowText(t: string)
    ensures Terminated(Lines(Quote(t))) == Quote(ReplaceNewlines(t)) + LineBreakToken
  {
    var q: string := "\"";
    var l := Lines(t);
    var m := |l| - 1;
    var a := Terminated(l[..m]) + l[m];
    var r := ReplaceNewlines(t);
    TerminatedQuoteHead(t);
    TerminatedAppendLast(l, '"');
    TerminatedLast(l);
    TerminatedLines(t);
    CancelRight(a, r, LineBreakToken);
    QuoteThen(r, LineBreakToken);
  }

  /** The opening quote joins the first line. */
  lemma TerminatedQuoteHead(t: string)
    ensures |Lines(t)| >= 1
    ensures Terminated(Lines(Quote(t))) == "\"" + Terminated(AppendLast(Lines(t), '"'))
  {
    var l2 := AppendLast(Lines(t), '"');
    var ls := Lines(Quote(t));
    LinesOfQuote(t);
    assert Terminated(ls) == "\"" + l2[0] + LineBreakToken + Terminated(l2[1..]);
  }

  /** A character added to the last line lands just before its token. */
  lemma TerminatedAppendLast(l: seq<string>, c: char)
    requires |l| >= 1
    ensures Terminated(AppendLast(l, c)) == Terminated(l[..|l| - 1]) + l[|l| - 1] + [c] + LineBreakToken
  {
    var m := |l| - 1;
    TerminatedSnoc(l[..m], l[m] + [c]);
    Assoc(Terminated(l[..m]), l[m], [c]);
  }

  lemma QuoteThen(r: string, u: string)
    ensures Quote(r) + u == "\"" + (r + "\"" + u)
  {
  }

  /** Removing the quotes of a row leaves its text and the final token. */
  lemma Unquote(c: string, r: string, u: string)
    requires forall i :: 0 <= i < |r| ==> r[i] != '"'
    requires forall i :: 0 <= i < |u| ==> u[i] != '"'
    ensures RemoveQuotes(c + Quote(r) + u) == RemoveQuotes(c) + r + u
  {
    var q: string := "\"";
    var qu := q + u;
    var rqu := r + qu;
    var all := q + rqu;
    QuoteThen(r, u);
    Assoc(r, q, u);
    Assoc(c, Quote(r), u);
    assert c + Quote(r) + u == c + all;
    RemoveQuotesAppend(c, all);
    DropQuote(rqu);
    KeepPlain(r, qu);
    DropQuote(u);
    RemoveQuotesSpec(u);
    Assoc(RemoveQuotes(c), r, u);
  }

  lemma DropQuote(v: string)
    ensures RemoveQuotes("\"" + v) == RemoveQuotes(v)
  {
    RemoveQuotesAppend("\"", v);
  }

  lemma KeepPlain(r: string, v: string)
    requires forall i :: 0 <= i < |r| ==> r[i] != '"'
    ensures RemoveQuotes(r + v) == r + RemoveQuotes(v)
  {
    RemoveQuotesAppend(r, v);
    RemoveQuotesSpec(r);
  }

  /** The lines of one quoted row are one entry for the splitter. */
  lemma QuotedRow(st: Splitter, t: string)
    requires Exportable(t)
    ensures FeedAll(st, Lines(Quote(t))) == Splitter(st.entries + [RemoveQuotes(st.current + Quote(ReplaceNewlines(t)) + LineBreakToken)], "")
  {
    RowShape(t);
    RowText(t);
    FeedEntry(st, Lines(Quote(t)));
    assert st.current + Terminated(Lines(Quote(t))) == st.current + Quote(ReplaceNewlines(t)) + LineBreakToken;
  }

  /** An exported entry read back: its newlines become line-break tokens
      and one more token follows its last line. */
  lemma QuotedEntry(st: Splitter, t: string)
    requires Exportable(t)
    ensures FeedAll(st, Lines(Quote(t))) == Splitter(st.entries + [RemoveQuotes(st.current) + ReplaceNewlines(t) + LineBreakToken], "")
  {
    QuotedRow(st, t);
    ReplaceNewlinesAvoid(t);
    Unquote(st.current, ReplaceNewlines(t), LineBreakToken);
  }

  lemma {:induction false} ReplaceNewlinesAvoid(t: string)
    requires forall i :: 0 <= i < |t| ==> t[i] != '"'
    ensures forall i :: 0 <= i < |ReplaceNewlines(t)| ==> ReplaceNewlines(t)[i] != '"'
  {
    if t != "" {
      ReplaceNewlinesAvoid(t[1..]);
    }
  }

  /** What the splitter makes of an exported entry. */
  function Imported(t: string): string
  {
    ReplaceNewlines(t) + LineBreakToken
  }

  /** Reading back a `-tsv` export gives one entry per exported entry, in
      order, each with its newlines as line-break tokens and one more
      token at its end. */
  lemma {:induction false} TsvRoundTrip(es: seq<string>)
    requires forall i :: 0 <= i < |es| ==> Exportable(es[i])
    ensures SplitEntries(Lines(ExportTsv(es))) == seq(|es|, i requires 0 <= i < |es| => Imported(es[i]))
  {
    ImportFrom(Splitter([], ""), es);
  }

  /** One exported row read from a clean state. */
  lemma ImportRow(st: Splitter, t: string)
    requires st.current == "" && Exportable(t)
    ensures FeedAll(st, Lines(Quote(t))) == Splitter(st.entries + [Imported(t)], "")
  {
    QuotedEntry(st, t);
    assert RemoveQuotes(st.current) == "";
    assert RemoveQuotes(st.current) + ReplaceNewlines(t) + LineBreakToken == Imported(t);
  }

  lemma {:induction false} ImportFrom(st: Splitter, es: seq<string>)
    requires st.current == "" && forall i :: 0 <= i < |es| ==> Exportable(es[i])
    ensures FeedAll(st, Lines(ExportTsv(es))).entries == st.entries + seq(|es|, i requires 0 <= i < |es| => Imported(es[i]))
    decreases |es|
  {
    var want := seq(|es|, i requires 0 <= i < |es| => Imported(es[i]));
    if es == [] {
      assert Lines("") == [""];
      assert FeedAll(st, [""]) == st;
    } else {
      ImportRow(st, es[0]);
      var st1 := Splitter(st.entries + [Imported(es[0])], "");
      if |es| == 1 {
        assert ExportTsv(es) == Quote(es[0]);
        assert want == [Imported(es[0])];
      } else {
        var rest := es[1..];
        ImportNext(st, es);
        ImportFrom(st1, rest);
        ImportedCons(es);
      }
    }
  }

  /** A file of two or more rows: the first row, then the rest. */
  lemma ImportNext(st: Splitter, es: seq<string>)
    requires |es| >= 2 && st.current == "" && Exportable(es[0])
    ensures FeedAll(st, Lines(ExportTsv(es))) == FeedAll(Splitter(st.entries + [Imported(es[0])], ""), Lines(ExportTsv(es[1..])))
  {
    var rest := es[1..];
    assert ExportTsv(es) == Quote(es[0]) + "\n" + ExportTsv(rest);
    LinesJoin2(Quote(es[0]), ExportTsv(rest));
    FeedAllAppend(st, Lines(Quote(es[0])), Lines(ExportTsv(rest)));
    ImportRow(st, es[0]);
  }

  /** The imported entries: the first, then those of the rest. */
  lemma ImportedCons(es: seq<string>)
    requires |es| >= 1
    ensures seq(|es|, i requires 0 <= i < |es| => Imported(es[i])) ==
            [Imported(es[0])] + seq(|es| - 1, i requires 0 <= i < |es| - 1 => Imported(es[1..][i]))
  {
  }
}
