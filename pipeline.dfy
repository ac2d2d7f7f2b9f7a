/**
 * `main.py`: the run that selects the home page's hot links, fetches and
 * summarises each article, and writes the dated report; and `save_to_txt`,
 * here rendering the report to a string.
 */
module Pipeline {
  import opened Wrappers
  import opened Text
  import opened Crawler
  import opened Llm

  // ---------------------------------------------------------------------------
  // `_num_to_cn`
  // ---------------------------------------------------------------------------

  /** The numerals for one to ten, one character each. */
  const CnNumerals: string := "一二三四五六七八九十"

  /** `_num_to_cn`: the Chinese numeral for 1 to 10, `str(n)` for every other `n`. */
  function NumToCn(n: int): string {
    if 1 <= n <= 10 then [CnNumerals[n - 1]] else IntToDecimal(n)
  }

  /** A numeral is one line; it is a single non-digit character exactly for 1 to 10. */
  lemma NumToCnSpec(n: int)
    ensures NumToCn(n) != [] && '\n' !in NumToCn(n)
    ensures (1 <= n <= 10) <==> (|NumToCn(n)| == 1 && !IsDigit(NumToCn(n)[0]))
  {
    if !(1 <= n <= 10) {
      var s := IntToDecimal(n);
      assert IsDigit(s[0]) || s[0] == '-';
    }
  }

  /** Reads an entry index back: a Chinese numeral one to ten, or a decimal numeral. */
  function NumeralValue(s: string): Option<int> {
    if s == "一" then Some(1)
    else if s == "二" then Some(2)
    else if s == "三" then Some(3)
    else if s == "四" then Some(4)
    else if s == "五" then Some(5)
    else if s == "六" then Some(6)
    else if s == "七" then Some(7)
    else if s == "八" then Some(8)
    else if s == "九" then Some(9)
    else if s == "十" then Some(10)
    else ParseInt(s)
  }

  /** Every index is written so that it reads back as itself. */
  lemma NumToCnRoundTrip(n: int)
    ensures NumeralValue(NumToCn(n)) == Some(n)
  {
    if !(1 <= n <= 10) {
      var s := IntToDecimal(n);
      assert IsDigit(s[0]) || s[0] == '-';
      ParseIntToDecimal(n);
    }
  }

  // ---------------------------------------------------------------------------
  // `save_to_txt`
  // ---------------------------------------------------------------------------

  /** One entry of `results`: the title used, the article URL and the summary. */
  datatype SummaryResult = SummaryResult(title: string, url: string, summary: string)

  const SummaryHeading := "【要点总结】"

  /** The lines of entry number `k`: numbered title, URL, heading, then the lines of the summary. */
  function EntryLines(k: int, it: SummaryResult): seq<string> {
    [NumToCn(k) + "、" + SingleLine(it.title), SingleLine(it.url), SummaryHeading] + SplitLines(Strip(it.summary))
  }

  /** The text `save_to_txt` writes for entry number `k`, up to the blank line between entries. */
  function Entry(k: int, it: SummaryResult): string {
    NumToCn(k) + "、" + SingleLine(it.title) + "\n" + SingleLine(it.url) + "\n"
      + SummaryHeading + "\n" + Strip(it.summary) + "\n"
  }

  /** `f` applied to each element of `xs` and its number, counting from `k`. */
  function Numbered<T>(xs: seq<T>, k: int, f: (int, T) -> string): (r: seq<string>)
    ensures |r| == |xs|
    decreases |xs|
  {
    if xs == [] then [] else [f(k, xs[0])] + Numbered(xs[1..], k + 1, f)
  }

  lemma {:induction false} NumberedSnoc<T>(xs: seq<T>, x: T, k: int, f: (int, T) -> string)
    ensures Numbered(xs + [x], k, f) == Numbered(xs, k, f) + [f(k + |xs|, x)]
    decreases |xs|
  {
    if xs == [] {
      assert [] + [x] == [x];
    } else {
      assert (xs + [x])[1..] == xs[1..] + [x];
      NumberedSnoc(xs[1..], x, k + 1, f);
    }
  }

  /** The entries of `items`, numbered from `k`. */
  function EntriesFrom(items: seq<SummaryResult>, k: int): seq<string> {
    Numbered(items, k, Entry)
  }

  /** A further item adds its entry, numbered after the others. */
  lemma EntriesFromSnoc(items: seq<SummaryResult>, it: SummaryResult, k: int)
    ensures EntriesFrom(items + [it], k) == EntriesFrom(items, k) + [Entry(k + |items|, it)]
  {
    NumberedSnoc(items, it, k, Entry);
  }

  /** The whole report: the entries numbered from one, a blank line between two of them. */
  function ReportText(items: seq<SummaryResult>): (r: string)
    ensures items == [] ==> r == []
  {
    Join(EntriesFrom(items, 1), "\n")
  }

  /** The writing loop of `save_to_txt`, appending to a buffer instead of a file. */
  method RenderReport(items: seq<SummaryResult>) returns (text: string)
    ensures text == ReportText(items)
  {
    text := [];
    var idx := 1;
    while idx <= |items|
      invariant 1 <= idx <= |items| + 1
      invariant text == ReportText(items[..idx - 1]) + (if 1 < idx <= |items| then "\n" else "")
    {
      var it := items[idx - 1];
      var title := SingleLine(it.title);
      var url := SingleLine(it.url);
      var summary := Strip(it.summary);
      ghost var before := text;
      text := text + NumToCn(idx) + "、";
      text := text + title + "\n";
      text := text + url + "\n";
      text := text + SummaryHeading + "\n";
      text := text + summary + "\n";
      AppendEntry(before, NumToCn(idx), title, url, summary);
      ReportStep(items, idx);
      if idx != |items| {
        text := text + "\n";
      }
      idx := idx + 1;
    }
    assert items[..|items|] == items;
  }

  /** The report of the first `idx` items extends that of the first `idx - 1` by entry `idx`. */
  lemma ReportStep(items: seq<SummaryResult>, idx: nat)
    requires 1 <= idx <= |items|
    ensures ReportText(items[..idx])
      == ReportText(items[..idx - 1]) + (if idx > 1 then "\n" else "") + Entry(idx, items[idx - 1])
  {
    assert items[..idx] == items[..idx - 1] + [items[idx - 1]];
    if idx > 1 {
      ReportAppend(items[..idx - 1], items[idx - 1]);
    } else {
      EntriesFromSnoc([], items[0], 1);
    }
  }

  /** Writing an entry piece by piece appends the whole entry. */
  lemma AppendEntry(before: string, numeral: string, title: string, url: string, summary: string)
    ensures before + numeral + "、" + title + "\n" + url + "\n" + SummaryHeading + "\n" + summary + "\n"
      == before + (numeral + "、" + title + "\n" + url + "\n" + SummaryHeading + "\n" + summary + "\n")
  {
  }

  lemma JoinSnoc(parts: seq<string>, n: nat)
    requires 1 <= n <= |parts|
    ensures Join(parts[..n], "\n") == Join(parts[..n - 1], "\n") + (if n > 1 then "\n" else "") + parts[n - 1]
  {
    if n > 1 {
      assert parts[..n] == parts[..n - 1] + [parts[n - 1]];
      JoinAppend(parts[..n - 1], [parts[n - 1]], "\n");
    } else {
      assert parts[..n] == [parts[0]];
    }
  }

  /** A further item adds a blank line and its entry, numbered after the others. */
  lemma ReportAppend(items: seq<SummaryResult>, it: SummaryResult)
    requires items != []
    ensures ReportText(items + [it]) == ReportText(items) + "\n" + Entry(|items| + 1, it)
  {
    EntriesFromSnoc(items, it, 1);
    JoinAppend(EntriesFrom(items, 1), [Entry(|items| + 1, it)], "\n");
  }

  /** The lines of the report for items numbered from `k`: each entry's lines and an empty line. */
  function LinesFrom(items: seq<SummaryResult>, k: int): (r: seq<string>)
    ensures |r| >= 5 * |items|
    decreases |items|
  {
    if items == [] then [] else EntryLines(k, items[0]) + [""] + LinesFrom(items[1..], k + 1)
  }

  /**
   * No trimmed summary holds an empty line, the one thing the layout cannot
   * represent: an empty line ends an entry.
   */
  predicate NoBlankLines(items: seq<SummaryResult>) {
    forall i :: 0 <= i < |items| ==> !Contains(Strip(items[i].summary), "\n\n")
  }

  lemma EntryAsLines(k: int, it: SummaryResult)
    ensures Entry(k, it) == Join(EntryLines(k, it) + [""], "\n")
  {
    JoinEntryShape(NumToCn(k) + "、" + SingleLine(it.title), SingleLine(it.url), SummaryHeading, Strip(it.summary));
  }

  /** Three lines and the lines of a text, then an empty line, join back to the text the loop writes. */
  lemma JoinEntryShape(t: string, u: string, h: string, summary: string)
    ensures Join([t, u, h] + SplitLines(summary) + [""], "\n") == t + "\n" + u + "\n" + h + "\n" + summary + "\n"
  {
    var head, tail := [t, u, h], SplitLines(summary) + [""];
    assert [t, u, h] + SplitLines(summary) + [""] == head + tail;
    JoinAppend(head, tail, "\n");
    JoinThree(t, u, h);
    JoinTerminated(summary);
    AppendLine(t + "\n" + u + "\n" + h + "\n", summary);
  }

  lemma JoinThree(t: string, u: string, h: string)
    ensures Join([t, u, h], "\n") == t + "\n" + u + "\n" + h
  {
    JoinSnoc([t, u, h], 2);
    JoinSnoc([t, u, h], 3);
    assert [t, u, h][..3] == [t, u, h];
    assert [t, u, h][..2] == [t, u];
    assert [t, u, h][..1] == [t];
  }

  /** The lines of a text followed by an empty line join to the text and a final newline. */
  lemma JoinTerminated(summary: string)
    ensures Join(SplitLines(summary) + [""], "\n") == summary + "\n"
  {
    JoinAppend(SplitLines(summary), [""], "\n");
    JoinSplit(summary);
  }

  lemma AppendLine(before: string, line: string)
    ensures before + (line + "\n") == before + line + "\n"
  {
  }

  lemma {:induction false} JoinedEntries(items: seq<SummaryResult>, k: int)
    requires items != []
    ensures Join(EntriesFrom(items, k), "\n") == Join(LinesFrom(items, k), "\n")
    decreases |items|
  {
    var group := EntryLines(k, items[0]) + [""];
    var rest := items[1..];
    EntryAsLines(k, items[0]);
    assert LinesFrom(items, k) == group + LinesFrom(rest, k + 1);
    if rest == [] {
      assert group + [] == group;
    } else {
      JoinAppend([Entry(k, items[0])], EntriesFrom(rest, k + 1), "\n");
      JoinedEntries(rest, k + 1);
      JoinAppend(group, LinesFrom(rest, k + 1), "\n");
    }
  }

  lemma EntryLinesHaveNoNewline(k: int, it: SummaryResult)
    ensures forall j :: 0 <= j < |EntryLines(k, it)| ==> '\n' !in EntryLines(k, it)[j]
  {
    NumToCnSpec(k);
    var head := [NumToCn(k) + "、" + SingleLine(it.title), SingleLine(it.url), SummaryHeading];
    var body := SplitLines(Strip(it.summary));
    assert '\n' !in head[0];
    forall j | 0 <= j < |EntryLines(k, it)| ensures '\n' !in EntryLines(k, it)[j] {
      if j >= 3 {
        assert EntryLines(k, it)[j] == body[j - 3];
      }
    }
  }

  /** No line of the report holds a newline: titles and URLs are put on one line, summaries split. */
  lemma {:induction false} LinesHaveNoNewline(items: seq<SummaryResult>, k: int)
    ensures forall i :: 0 <= i < |LinesFrom(items, k)| ==> '\n' !in LinesFrom(items, k)[i]
    decreases |items|
  {
    if items != [] {
      var rest := LinesFrom(items[1..], k + 1);
      LinesHaveNoNewline(items[1..], k + 1);
      EntryLinesHaveNoNewline(k, items[0]);
      var group := EntryLines(k, items[0]) + [""];
      var all := LinesFrom(items, k);
      assert all == group + rest;
      forall i | 0 <= i < |all| ensures '\n' !in all[i] {
        if i < |group| {
          assert all[i] == group[i];
        } else {
          assert all[i] == rest[i - |group|];
        }
      }
    }
  }

  /**
   * The layout of the report: it splits into the lines of each entry in item
   * order, the numbered title, the URL, the heading and the summary's lines,
   * each entry followed by an empty line.
   */
  lemma ReportLines(items: seq<SummaryResult>)
    requires items != []
    ensures SplitLines(ReportText(items)) == LinesFrom(items, 1)
  {
    JoinedEntries(items, 1);
    LinesHaveNoNewline(items, 1);
    SplitJoin(LinesFrom(items, 1));
  }

  /**
   * Cuts the lines after an entry's heading at the first empty line: the
   * summary's lines before it, and the lines after it.
   */
  function ReadSummary(lines: seq<string>): (r: Option<(seq<string>, seq<string>)>)
    ensures r.None? <==> "" !in lines
    ensures r.Some? ==> lines == r.value.0 + [""] + r.value.1 && "" !in r.value.0
    decreases |lines|
  {
    if lines == [] then None
    else if lines[0] == "" then Some(([], lines[1..]))
    else match ReadSummary(lines[1..])
      case None => None
      case Some((body, after)) => Some(([lines[0]] + body, after))
  }

  /**
   * Reads entries numbered from `k` back from the report's lines. An empty
   * summary is written as an empty line, so its entry ends in two empty lines.
   */
  function ReadEntries(lines: seq<string>, k: int): Option<seq<SummaryResult>>
    decreases |lines|
  {
    if lines == [] then Some([])
    else if |lines| < 3 then None
    else
      var prefix := NumToCn(k) + "、";
      if !HasPrefix(lines[0], prefix) || lines[2] != SummaryHeading then None
      else match ReadSummary(lines[3..])
        case None => None
        case Some((body, after)) =>
          if body == [] && (after == [] || after[0] != "") then None
          else
            var rest := if body == [] then after[1..] else after;
            match ReadEntries(rest, k + 1)
            case None => None
            case Some(more) => Some([SummaryResult(lines[0][|prefix|..], lines[1], Join(body, "\n"))] + more)
  }

  /** Reads a report back into its entries. */
  function ReadReport(text: string): Option<seq<SummaryResult>> {
    if text == [] then Some([]) else ReadEntries(SplitLines(text), 1)
  }

  /** What the report keeps of an item: title and URL on one line, the summary trimmed. */
  function AsWritten(it: SummaryResult): SummaryResult {
    SummaryResult(SingleLine(it.title), SingleLine(it.url), Strip(it.summary))
  }

  function AsWrittenAll(items: seq<SummaryResult>): (r: seq<SummaryResult>)
    ensures |r| == |items| && forall i :: 0 <= i < |items| ==> r[i] == AsWritten(items[i])
  {
    seq(|items|, i requires 0 <= i < |items| => AsWritten(items[i]))
  }

  lemma {:induction false} ReadEntriesFrom(items: seq<SummaryResult>, k: int)
    requires NoBlankLines(items)
    ensures ReadEntries(LinesFrom(items, k), k) == Some(AsWrittenAll(items))
    decreases |items|
  {
    if items != [] {
      var rest := LinesFrom(items[1..], k + 1);
      assert LinesFrom(items, k) == EntryLines(k, items[0]) + [""] + rest;
      EntryRead(k, items[0], rest);
      ReadEntriesFrom(items[1..], k + 1);
      AsWrittenAllCons(items);
    }
  }

  lemma AsWrittenAllCons(items: seq<SummaryResult>)
    requires items != []
    ensures AsWrittenAll(items) == [AsWritten(items[0])] + AsWrittenAll(items[1..])
  {
    var all, rest := AsWrittenAll(items), AsWrittenAll(items[1..]);
    forall i | 0 < i < |items| ensures all[i] == rest[i - 1] {
      assert items[1..][i - 1] == items[i];
    }
  }

  /** An entry followed by further lines reads back as the item as written, then what those lines read as. */
  lemma EntryRead(k: int, it: SummaryResult, tail: seq<string>)
    requires !Contains(Strip(it.summary), "\n\n")
    ensures ReadEntries(EntryLines(k, it) + [""] + tail, k)
      == match ReadEntries(tail, k + 1)
         case None => None
         case Some(more) => Some([AsWritten(it)] + more)
  {
    var lines := EntryLines(k, it) + [""] + tail;
    var prefix, title := NumToCn(k) + "、", SingleLine(it.title);
    var summary := Strip(it.summary);
    var body := SplitLines(summary);
    assert lines[0] == prefix + title && lines[1] == SingleLine(it.url) && lines[2] == SummaryHeading;
    SplitAt(prefix, title);
    assert lines[3..] == body + [""] + tail;
    JoinSplit(summary);
    if summary == [] {
      assert body == [""];
      assert lines[3..] == [""] + ([""] + tail);
      assert ([""] + tail)[1..] == tail;
    } else {
      StripSpec(it.summary);
      SplitLinesNonEmpty(summary);
      assert "" !in body;
      ReadSummaryOf(body, tail);
    }
  }

  /** The summary's lines, all non-empty, are read up to the empty line after them. */
  lemma {:induction false} ReadSummaryOf(body: seq<string>, tail: seq<string>)
    requires "" !in body
    ensures ReadSummary(body + [""] + tail) == Some((body, tail))
    decreases |body|
  {
    if body == [] {
      assert [] + [""] + tail == [""] + tail;
    } else {
      assert (body + [""] + tail)[1..] == body[1..] + [""] + tail;
      ReadSummaryOf(body[1..], tail);
      assert [body[0]] + body[1..] == body;
    }
  }

  /**
   * Nothing is lost in the report: unless a trimmed summary holds an empty line,
   * reading the report back gives every item, in order, as written (one-line
   * title and URL, trimmed summary, which may run over several lines).
   */
  lemma ReportRoundTrip(items: seq<SummaryResult>)
    requires NoBlankLines(items)
    ensures ReadReport(ReportText(items)) == Some(AsWrittenAll(items))
  {
    if items != [] {
      var text := ReportText(items);
      ReportLines(items);
      ReadEntriesFrom(items, 1);
      assert text != [] by {
        assert SplitLines(text) == LinesFrom(items, 1);
        assert |LinesFrom(items, 1)| >= 5;
      }
    }
  }

  /**
   * Why summaries with an empty line are excluded: an item whose summary holds
   * an empty line followed by the text of a second entry gives the same report
   * as two items.
   */
  lemma BlankLineAmbiguous(t: string, u: string, a: string, b: string)
    requires SingleLine(t) == t && SingleLine(u) == u
    requires a != [] && !IsSpace(a[0]) && !IsSpace(a[|a| - 1])
    requires b != [] && !IsSpace(b[0]) && !IsSpace(b[|b| - 1])
    ensures var two := a + "\n\n" + NumToCn(2) + "、" + t + "\n" + u + "\n" + SummaryHeading + "\n" + b;
      ReportText([SummaryResult(t, u, two)]) == ReportText([SummaryResult(t, u, a), SummaryResult(t, u, b)])
  {
    var two := a + "\n\n" + NumToCn(2) + "、" + t + "\n" + u + "\n" + SummaryHeading + "\n" + b;
    var x, y, z := SummaryResult(t, u, two), SummaryResult(t, u, a), SummaryResult(t, u, b);
    StripSpec(a);
    StripSpec(b);
    assert two[0] == a[0] && two[|two| - 1] == b[|b| - 1];
    StripSpec(two);
    assert ReportText([x]) == Entry(1, x);
    assert [y] + [z] == [y, z];
    ReportAppend([y], z);
    assert ReportText([y]) == Entry(1, y);
    assert Strip(two) == two && Strip(a) == a && Strip(b) == b;
    assert Entry(1, x) == NumToCn(1) + "、" + t + "\n" + u + "\n" + SummaryHeading + "\n" + two + "\n";
    assert Entry(1, y) == NumToCn(1) + "、" + t + "\n" + u + "\n" + SummaryHeading + "\n" + a + "\n";
    assert Entry(2, z) == NumToCn(2) + "、" + t + "\n" + u + "\n" + SummaryHeading + "\n" + b + "\n";
    EntriesRegroup(NumToCn(1), NumToCn(2), t, u, a, b);
  }

  lemma EntriesRegroup(n1: string, n2: string, t: string, u: string, a: string, b: string)
    ensures n1 + "、" + t + "\n" + u + "\n" + SummaryHeading + "\n"
        + (a + "\n\n" + n2 + "、" + t + "\n" + u + "\n" + SummaryHeading + "\n" + b) + "\n"
      == (n1 + "、" + t + "\n" + u + "\n" + SummaryHeading + "\n" + a + "\n") + "\n"
        + (n2 + "、" + t + "\n" + u + "\n" + SummaryHeading + "\n" + b + "\n")
  {
  }

  /** The date `datetime.now()` gives. */
  datatype Date = Date(year: nat, month: nat, day: nat)

  const NameSuffix := "网易新闻要点.txt"

  /** `f"{now.year}年{now.month}月{now.day}日网易新闻要点.txt"`: plain decimals, no zero padding. */
  function FileName(d: Date): string {
    NatToDecimal(d.year) + "年" + NatToDecimal(d.month) + "月" + NatToDecimal(d.day) + "日" + NameSuffix
  }

  /** `s` cut at the first `c`, which is dropped. */
  function CutAt(s: string, c: char): Option<(string, string)> {
    match IndexOf(s, c)
    case None => None
    case Some(i) => Some((s[..i], s[i + 1..]))
  }

  /** Reads the date back out of a report file name. */
  function ParseFileName(s: string): Option<Date> {
    match CutAt(s, '年')
    case None => None
    case Some((y, afterYear)) =>
      match CutAt(afterYear, '月')
      case None => None
      case Some((m, afterMonth)) =>
        match CutAt(afterMonth, '日')
        case None => None
        case Some((d, rest)) =>
          if rest != NameSuffix then None
          else match (ParseNat(y), ParseNat(m), ParseNat(d))
            case (Some(yv), Some(mv), Some(dv)) => Some(Date(yv, mv, dv))
            case _ => None
  }

  /** Cutting at a non-digit that follows a run of digits splits there. */
  lemma CutAfterDigits(ds: string, c: char, rest: string)
    requires forall i :: 0 <= i < |ds| ==> IsDigit(ds[i])
    requires !IsDigit(c)
    ensures CutAt(ds + [c] + rest, c) == Some((ds, rest))
  {
    var s := ds + [c] + rest;
    assert s[|ds|] == c;
    assert forall i :: 0 <= i < |ds| ==> s[i] == ds[i];
    assert s[..|ds|] == ds && s[|ds| + 1..] == rest;
  }

  /** The file name gives back the date it was made from. */
  lemma FileNameRoundTrip(date: Date)
    ensures ParseFileName(FileName(date)) == Some(date)
  {
    var y, m, d := NatToDecimal(date.year), NatToDecimal(date.month), NatToDecimal(date.day);
    var afterMonth := d + "日" + NameSuffix;
    var afterYear := m + "月" + afterMonth;
    assert FileName(date) == y + ['年'] + afterYear;
    CutAfterDigits(y, '年', afterYear);
    assert afterYear == m + ['月'] + afterMonth;
    CutAfterDigits(m, '月', afterMonth);
    assert afterMonth == d + ['日'] + NameSuffix;
    CutAfterDigits(d, '日', NameSuffix);
    ParseNatToDecimal(date.year);
    ParseNatToDecimal(date.month);
    ParseNatToDecimal(date.day);
  }

  /** The file name depends only on the date, and different dates give different names. */
  lemma FileNameInjective(d1: Date, d2: Date)
    ensures FileName(d1) == FileName(d2) <==> d1 == d2
  {
    FileNameRoundTrip(d1);
    FileNameRoundTrip(d2);
  }

  // ---------------------------------------------------------------------------
  // One hot link
  // ---------------------------------------------------------------------------

  const NotFoundMarker := "未找到标题"

  /**
   * The title used for the summary: the extracted title, stripped, unless it is
   * empty or merely contains the not-found marker, in which case the stripped
   * anchor text of the hot link.
   */
  function ChooseTitle(extracted: string, anchorText: string): string {
    var t := Strip(extracted);
    if t == [] || Contains(t, NotFoundMarker) then Strip(anchorText) else t
  }

  /** The crawler's placeholder title is never used: the anchor text replaces it. */
  lemma PlaceholderTitleReplaced(anchorText: string)
    ensures ChooseTitle(TitlePlaceholder, anchorText) == Strip(anchorText)
  {
    StripSpec(TitlePlaceholder);
    assert OccursAt(TitlePlaceholder, NotFoundMarker, 1);
  }

  /**
   * The test is for the marker anywhere: any title that contains it is
   * replaced, whatever surrounds it, as the marker has no whitespace at its ends.
   */
  lemma MarkerInTitleReplaced(title: string, i: int, anchorText: string)
    requires OccursAt(title, NotFoundMarker, i)
    ensures ChooseTitle(title, anchorText) == Strip(anchorText)
  {
    assert !IsSpace(NotFoundMarker[0]) && !IsSpace(NotFoundMarker[|NotFoundMarker| - 1]);
    StripKeepsOccurrence(title, NotFoundMarker, i);
  }

  /** A title without the marker and without surrounding whitespace is kept as it is. */
  lemma CleanTitleKept(title: string, anchorText: string)
    requires title != [] && !IsSpace(title[0]) && !IsSpace(title[|title| - 1])
    requires !Contains(title, NotFoundMarker)
    ensures ChooseTitle(title, anchorText) == title
  {
    StripSpec(title);
  }

  const MaxContent: nat := 8000
  const HeadKept: nat := 6000
  const TailKept: nat := 1500
  const Elision := "\n...\n"

  /** Overlong article text keeps its first 6000 and last 1500 characters around an elision mark. */
  function Truncate(content: string): (r: string)
    ensures |r| <= MaxContent
    ensures |content| <= MaxContent ==> r == content
    ensures |content| > MaxContent ==>
      && |r| == HeadKept + |Elision| + TailKept
      && r[..HeadKept] == content[..HeadKept]
      && r[HeadKept..HeadKept + |Elision|] == Elision
      && r[HeadKept + |Elision|..] == content[|content| - TailKept..]
  {
    if |content| > MaxContent then content[..HeadKept] + Elision + content[|content| - TailKept..]
    else content
  }

  /** Truncating twice is truncating once. */
  lemma TruncateIdempotent(content: string)
    ensures Truncate(Truncate(content)) == Truncate(content)
  {
  }

  /**
   * The body of the loop of `main` for one hot link: `None` where it
   * `continue`s, because fetching the article or summarising it raised.
   * `fetchPage` stands for the download and parsing of an article page, `None`
   * where it raises.
   */
  function ProcessOne(link: HotLink, fetchPage: string -> Option<Page>, post: ChatRequest -> Option<Json>): Option<SummaryResult> {
    match fetchPage(link.url)
    case None => None
    case Some(page) =>
      var news := ArticleOf(link.url, page);
      var title := ChooseTitle(news.title, link.text);
      var content := Truncate(Strip(news.content));
      match Summarize(title, content, DefaultModel, DefaultBaseUrl, DefaultTimeout, post)
      case None => None
      case Some(summary) => Some(SummaryResult(title, link.url, summary))
  }

  /** What the loop body gives for each hot link. */
  function Outcomes(hot: seq<HotLink>, fetchPage: string -> Option<Page>, post: ChatRequest -> Option<Json>): (r: seq<Option<SummaryResult>>)
    ensures |r| == |hot| && forall i :: 0 <= i < |hot| ==> r[i] == ProcessOne(hot[i], fetchPage, post)
  {
    seq(|hot|, i requires 0 <= i < |hot| => ProcessOne(hot[i], fetchPage, post))
  }

  /** The values of the successful outcomes, in order. */
  function Successes(outs: seq<Option<SummaryResult>>): (r: seq<SummaryResult>)
    ensures |r| <= |outs|
  {
    if outs == [] then []
    else
      var prev := Successes(outs[..|outs| - 1]);
      match outs[|outs| - 1]
      case None => prev
      case Some(item) => prev + [item]
  }

  /** The `results` list after the loop of `main` has gone through `hot`. */
  function Processed(hot: seq<HotLink>, fetchPage: string -> Option<Page>, post: ChatRequest -> Option<Json>): seq<SummaryResult> {
    Successes(Outcomes(hot, fetchPage, post))
  }

  /** One more hot link adds its summary, if it has one, to the results. */
  lemma ProcessedStep(hot: seq<HotLink>, i: nat, fetchPage: string -> Option<Page>, post: ChatRequest -> Option<Json>)
    requires i < |hot|
    ensures var one := ProcessOne(hot[i], fetchPage, post);
      Processed(hot[..i + 1], fetchPage, post)
      == Processed(hot[..i], fetchPage, post) + (if one.Some? then [one.value] else [])
  {
    var outs := Outcomes(hot[..i + 1], fetchPage, post);
    assert outs[..i] == Outcomes(hot[..i], fetchPage, post);
  }

  /** The loop of `main` over the hot links, skipping a link whose article or summary fails. */
  method ProcessHotLinks(hot: seq<HotLink>, fetchPage: string -> Option<Page>, post: ChatRequest -> Option<Json>)
    returns (results: seq<SummaryResult>)
    ensures results == Processed(hot, fetchPage, post)
  {
    results := [];
    for i := 0 to |hot|
      invariant results == Processed(hot[..i], fetchPage, post)
    {
      ProcessedStep(hot, i, fetchPage, post);
      var item := hot[i];
      var url := item.url;
      var page := fetchPage(url);
      if page.None? {
        continue;
      }
      var news := FetchNews(url, page.value);
      var title := ChooseTitle(news.title, item.text);
      var content := Strip(news.content);
      content := Truncate(content);
      var summary := Summarize(title, content, DefaultModel, DefaultBaseUrl, DefaultTimeout, post);
      if summary.None? {
        continue;
      }
      results := results + [SummaryResult(title, url, summary.value)];
    }
    assert hot[..|hot|] == hot;
  }

  /** The positions of the successful outcomes. */
  ghost function SuccessPositions(outs: seq<Option<SummaryResult>>): seq<nat> {
    if outs == [] then []
    else
      var pos := SuccessPositions(outs[..|outs| - 1]);
      if outs[|outs| - 1].None? then pos else pos + [|outs| - 1]
  }

  /** The successes are taken in order, and every outcome left out is a failure. */
  lemma {:induction false} SuccessesInOrder(outs: seq<Option<SummaryResult>>)
    ensures var r, pos := Successes(outs), SuccessPositions(outs);
      && |pos| == |r|
      && (forall k :: 0 <= k < |pos| ==> pos[k] < |outs| && outs[pos[k]] == Some(r[k]))
      && (forall k, l :: 0 <= k < l < |pos| ==> pos[k] < pos[l])
      && (forall i :: 0 <= i < |outs| && i !in pos ==> outs[i].None?)
  {
    if outs != [] {
      var init := outs[..|outs| - 1];
      SuccessesInOrder(init);
      var pos := SuccessPositions(init);
      assert forall k :: 0 <= k < |pos| ==> outs[pos[k]] == init[pos[k]];
      forall i | 0 <= i < |outs| - 1 && i !in SuccessPositions(outs) ensures outs[i].None? {
        assert outs[i] == init[i];
      }
    }
  }

  /** A result carries the URL of the hot link it was made for. */
  lemma ProcessOneKeepsUrl(link: HotLink, fetchPage: string -> Option<Page>, post: ChatRequest -> Option<Json>)
    ensures ProcessOne(link, fetchPage, post).Some? ==> ProcessOne(link, fetchPage, post).value.url == link.url
  {
  }

  /**
   * The results are the successful hot links, in order: each comes from its own
   * hot link and carries that link's URL, and every hot link left out failed.
   */
  lemma ProcessedInOrder(hot: seq<HotLink>, fetchPage: string -> Option<Page>, post: ChatRequest -> Option<Json>)
    ensures var r, pos := Processed(hot, fetchPage, post), SuccessPositions(Outcomes(hot, fetchPage, post));
      && |pos| == |r|
      && (forall k :: 0 <= k < |pos| ==> pos[k] < |hot| && ProcessOne(hot[pos[k]], fetchPage, post) == Some(r[k]))
      && (forall k :: 0 <= k < |pos| ==> r[k].url == hot[pos[k]].url)
      && (forall k, l :: 0 <= k < l < |pos| ==> pos[k] < pos[l])
      && (forall i :: 0 <= i < |hot| && i !in pos ==> ProcessOne(hot[i], fetchPage, post).None?)
  {
    var outs := Outcomes(hot, fetchPage, post);
    SuccessesInOrder(outs);
    var r, pos := Successes(outs), SuccessPositions(outs);
    forall k | 0 <= k < |pos| ensures r[k].url == hot[pos[k]].url {
      ProcessOneKeepsUrl(hot[pos[k]], fetchPage, post);
    }
  }

  // ---------------------------------------------------------------------------
  // The run
  // ---------------------------------------------------------------------------

  const HotLinkLimit := 10

  datatype Report = Report(fileName: string, text: string)

  /** How `main` ends. */
  datatype Outcome =
    | HomeUnavailable     // fetching the home page raised; `main` does not catch it
    | NoHotLinks          // nothing was selected: return before any article is fetched
    | NothingSummarized   // every hot link failed: no file is written
    | Written(report: Report)

  /**
   * `main`, with `home` the anchors of the home page (`None` where downloading
   * it raises) and `today` the date of the run.
   */
  function Run(home: Option<seq<Anchor>>, today: Date,
               fetchPage: string -> Option<Page>, post: ChatRequest -> Option<Json>): Outcome {
    match home
    case None => HomeUnavailable
    case Some(anchors) =>
      var hot := Selected(anchors, HotLinkLimit);
      if hot == [] then NoHotLinks
      else
        var results := Processed(hot, fetchPage, post);
        if results == [] then NothingSummarized
        else Written(Report(FileName(today), ReportText(results)))
  }

  /** `main` as a sequence of steps, each the method modelling it. */
  method RunMain(home: Option<seq<Anchor>>, today: Date,
                 fetchPage: string -> Option<Page>, post: ChatRequest -> Option<Json>) returns (outcome: Outcome)
    ensures outcome == Run(home, today, fetchPage, post)
  {
    if home.None? {
      return HomeUnavailable;
    }
    var hot, _ := FetchHomeHotLinks(home.value, HotLinkLimit);
    if hot == [] {
      return NoHotLinks;
    }
    var results := ProcessHotLinks(hot, fetchPage, post);
    if results != [] {
      var text := RenderReport(results);
      outcome := Written(Report(FileName(today), text));
    } else {
      outcome := NothingSummarized;
    }
  }

  /**
   * A report is written exactly when at least one hot link was summarised; it
   * is named after the date, holds one entry per result and at most ten, and no
   * two of them share a URL.
   */
  lemma RunReport(anchors: seq<Anchor>, today: Date,
                  fetchPage: string -> Option<Page>, post: ChatRequest -> Option<Json>)
    ensures var hot := Selected(anchors, HotLinkLimit);
      var results := Processed(hot, fetchPage, post);
      var outcome := Run(Some(anchors), today, fetchPage, post);
      && (outcome.Written? <==> results != [])
      && (hot == [] ==> outcome == NoHotLinks)
      && (outcome.Written? ==>
            && outcome.report.fileName == FileName(today)
            && outcome.report.text == ReportText(results)
            && |results| <= HotLinkLimit
            && forall i, j :: 0 <= i < j < |results| ==> results[i].url != results[j].url)
  {
    var hot := Selected(anchors, HotLinkLimit);
    var results := Processed(hot, fetchPage, post);
    SelectFromUrlsDistinct(Candidates(anchors), HotLinkLimit);
    ProcessedInOrder(hot, fetchPage, post);
    var pos := SuccessPositions(Outcomes(hot, fetchPage, post));
    forall i, j | 0 <= i < j < |results| ensures results[i].url != results[j].url {
      assert results[i].url == hot[pos[i]].url && results[j].url == hot[pos[j]].url;
      assert pos[i] < pos[j];
    }
  }
}
