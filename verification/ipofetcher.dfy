/** The IPO listing fetcher: month/year validation, `_parse_date`, the
    row-to-record filter shared by the Selenium and the requests fetchers,
    and the result/error envelope of `fetch_ipo_data`. Fetching and HTML
    parsing are outside the model: a fetch yields a `Page`. Date parsing
    with `strptime` is passed in as two partial parsers. */
module IpoFetcher {
  import opened Results
  import opened Text
  import opened PyInt

  datatype Date = Date(year: int, month: int, day: int)

  /** The month and day fields `strptime(s, '%a, %b %d')` reads, before it
      builds a date from them in its default year. */
  datatype MonthDay = MonthDay(month: int, day: int)

  /** The result of one fetch: the table rows as cell texts, no table, or an
      exception with its message. */
  datatype Page = Table(rows: seq<seq<string>>) | NoTable | FetchFailed(reason: string)

  datatype ListDate = YetToList | Listed(date: Date)

  /** One IPO entry of the report. */
  datatype Ipo = Ipo(companyName: string, openDate: Date, closeDate: Date, listDate: ListDate,
                     price: string, totalIssueAmount: string, exchange: string, leadManager: string)

  /** The dictionary `fetch_ipo_data` returns. */
  datatype Report = Report(year: int, month: int, monthName: string, totalIpos: nat, ipos: seq<Ipo>,
                           error: Option<string>)

  const YetToListText: string := "Yet to list"
  const NoTableMsg: string := "No IPO data table found on the webpage"
  const FetchFailedPrefix: string := "Failed to fetch data: "
  const MinYear: int := 2000
  const MaxYear: int := 2100

  function MonthName(m: int): string
    requires 1 <= m <= 12
  {
    match m
    case 1 => "January" case 2 => "February" case 3 => "March" case 4 => "April"
    case 5 => "May" case 6 => "June" case 7 => "July" case 8 => "August"
    case 9 => "September" case 10 => "October" case 11 => "November" case _ => "December"
  }

  // ---------------------------------------------------------------------------
  // _parse_date

  predicate IsLeap(y: int) {
    y % 4 == 0 && (y % 100 != 0 || y % 400 == 0)
  }

  function DaysIn(y: int, m: int): int
    requires 1 <= m <= 12
  {
    if m == 2 then (if IsLeap(y) then 29 else 28)
    else if m == 4 || m == 6 || m == 9 || m == 11 then 30
    else 31
  }

  /** A `datetime` can be built, or given a new year with `replace`, only when
      the day exists in that year. */
  predicate ValidDate(y: int, m: int, d: int) {
    1 <= y <= 9999 && 1 <= m <= 12 && 1 <= d <= DaysIn(y, m)
  }

  /** The year `strptime` puts in when the format has no year field. It is not
      a leap year, so a yearless 29 February raises `ValueError` inside
      `strptime` itself, before `replace` is reached. */
  const StrptimeDefaultYear: int := 1900

  /** `_parse_date(date_str, year)`: strip; empty gives `None`; try the
      with-year format; then the without-year format, which builds a date in
      the default year, followed by `replace(year=year)`; `None` when either
      step fails. */
  function ParseDate(text: string, year: int, withYear: string -> Option<Date>,
                     withoutYear: string -> Option<MonthDay>): Option<Date>
  {
    var s := Strip(text);
    if |s| == 0 then None
    else match withYear(s)
      case Some(d) => Some(d)
      case None =>
        match withoutYear(s)
        case None => None
        case Some(md) =>
          if !ValidDate(StrptimeDefaultYear, md.month, md.day) then None
          else if ValidDate(year, md.month, md.day) then Some(Date(year, md.month, md.day))
          else None
  }

  /** A day that exists in the default year exists in every year from 1 to
      9999, so after a successful yearless parse `replace` fails only for a
      year out of range. */
  lemma DefaultYearDays(year: int, m: int, d: int)
    requires ValidDate(StrptimeDefaultYear, m, d)
    ensures ValidDate(year, m, d) <==> 1 <= year <= 9999
  {
  }

  /** The fallback structure: blank text never parses; the with-year format
      wins when it applies; otherwise the without-year format is used with
      the requested year put in, failing when the day does not exist in the
      default year or the requested year is out of range; and when neither
      format applies there is no date. */
  lemma ParseDateSpec(text: string, year: int, withYear: string -> Option<Date>,
                      withoutYear: string -> Option<MonthDay>)
    ensures var s := Strip(text); var r := ParseDate(text, year, withYear, withoutYear);
      && ((forall i :: 0 <= i < |text| ==> IsSpace(text[i])) ==> r.None?)
      && (|s| > 0 && withYear(s).Some? ==> r == withYear(s))
      && (|s| > 0 && withYear(s).None? && withoutYear(s).Some? ==>
            var md := withoutYear(s).value;
            r == if ValidDate(StrptimeDefaultYear, md.month, md.day) && 1 <= year <= 9999
                 then Some(Date(year, md.month, md.day)) else None)
      && (withYear(s).None? && withoutYear(s).None? ==> r.None?)
      && (r.Some? && withYear(s).None? ==> r.value.year == year)
  {
    StripEmpty(text);
    var s := Strip(text);
    if |s| > 0 && withYear(s).None? && withoutYear(s).Some? {
      var md := withoutYear(s).value;
      if ValidDate(StrptimeDefaultYear, md.month, md.day) {
        DefaultYearDays(year, md.month, md.day);
      }
    }
  }

  /** February 29 without a year never parses, whatever year is requested,
      leap or not: the default year it is first built in has no such day. */
  lemma ParseDateFeb29(text: string, year: int, withYear: string -> Option<Date>,
                       withoutYear: string -> Option<MonthDay>)
    requires |Strip(text)| > 0 && withYear(Strip(text)).None?
    requires withoutYear(Strip(text)) == Some(MonthDay(2, 29))
    ensures ParseDate(text, year, withYear, withoutYear).None?
  {
  }

  // ---------------------------------------------------------------------------
  // The row filter

  /** The list-date column: empty or "Yet to list" means not yet listed;
      otherwise the date must parse, and a date that does not parse is `None`
      (the row is then dropped by the `strftime` call on it). */
  function ListDateOf(text: string, year: int, withYear: string -> Option<Date>,
                      withoutYear: string -> Option<MonthDay>): Option<ListDate>
  {
    if |text| > 0 && text != YetToListText then
      match ParseDate(text, year, withYear, withoutYear)
      case Some(d) => Some(Listed(d))
      case None => None
    else Some(YetToList)
  }

  /** One table row: skipped below eight cells; kept when the open and close
      dates parse, the close date falls in the requested month (any year),
      and the list date is absent, "Yet to list" or parses. */
  function RowToIpo(cells: seq<string>, month: int, year: int, withYear: string -> Option<Date>,
                    withoutYear: string -> Option<MonthDay>): Option<Ipo>
  {
    if |cells| < 8 then None
    else
      var openDate := ParseDate(cells[1], year, withYear, withoutYear);
      var closeDate := ParseDate(cells[2], year, withYear, withoutYear);
      var listDate := ListDateOf(cells[3], year, withYear, withoutYear);
      if openDate.Some? && closeDate.Some? && closeDate.value.month == month && listDate.Some? then
        Some(Ipo(cells[0], openDate.value, closeDate.value, listDate.value, cells[4], cells[5], cells[6], cells[7]))
      else None
  }

  /** The records of the kept rows, in row order. */
  function Kept(rows: seq<seq<string>>, month: int, year: int, withYear: string -> Option<Date>,
                withoutYear: string -> Option<MonthDay>): seq<Ipo>
    decreases |rows|
  {
    if |rows| == 0 then []
    else
      var last := RowToIpo(rows[|rows| - 1], month, year, withYear, withoutYear);
      Kept(rows[..|rows| - 1], month, year, withYear, withoutYear) + (if last.Some? then [last.value] else [])
  }

  /** `table.find_all('tr')[1:]` followed by the row loop. */
  function Extract(rows: seq<seq<string>>, month: int, year: int, withYear: string -> Option<Date>,
                   withoutYear: string -> Option<MonthDay>): seq<Ipo>
  {
    if |rows| == 0 then [] else Kept(rows[1..], month, year, withYear, withoutYear)
  }

  /** The row loop of both fetchers. */
  method ExtractIpos(rows: seq<seq<string>>, month: int, year: int, withYear: string -> Option<Date>,
                     withoutYear: string -> Option<MonthDay>) returns (ipos: seq<Ipo>)
    ensures ipos == Extract(rows, month, year, withYear, withoutYear)
    ensures |ipos| <= if |rows| == 0 then 0 else |rows| - 1
  {
    ipos := [];
    if |rows| == 0 {
      return;
    }
    var body := rows[1..];
    var k := 0;
    while k < |body|
      invariant 0 <= k <= |body|
      invariant ipos == Kept(body[..k], month, year, withYear, withoutYear)
      invariant |ipos| <= k
    {
      var r := RowToIpo(body[k], month, year, withYear, withoutYear);
      KeptStep(body, k, month, year, withYear, withoutYear);
      if r.Some? {
        ipos := ipos + [r.value];
      }
      k := k + 1;
    }
    assert body[..k] == body;
  }

  lemma KeptStep(rows: seq<seq<string>>, k: nat, month: int, year: int, withYear: string -> Option<Date>,
                  withoutYear: string -> Option<MonthDay>)
    requires k < |rows|
    ensures var r := RowToIpo(rows[k], month, year, withYear, withoutYear);
      Kept(rows[..k + 1], month, year, withYear, withoutYear) ==
        Kept(rows[..k], month, year, withYear, withoutYear) + (if r.Some? then [r.value] else [])
  {
    assert rows[..k + 1][..k] == rows[..k];
  }

  /** A row is kept exactly when it has at least eight cells, both its open
      and close dates parse, the close date's month is the requested month
      (its year is not compared), and its list date is empty, "Yet to list",
      or parses. The record copies the other cells unchanged. */
  lemma RowToIpoSpec(cells: seq<string>, month: int, year: int, withYear: string -> Option<Date>,
                     withoutYear: string -> Option<MonthDay>)
    ensures RowToIpo(cells, month, year, withYear, withoutYear).Some? <==>
      && |cells| >= 8
      && ParseDate(cells[1], year, withYear, withoutYear).Some?
      && ParseDate(cells[2], year, withYear, withoutYear).Some?
      && ParseDate(cells[2], year, withYear, withoutYear).value.month == month
      && (|cells[3]| == 0 || cells[3] == YetToListText || ParseDate(cells[3], year, withYear, withoutYear).Some?)
    ensures RowToIpo(cells, month, year, withYear, withoutYear).Some? ==>
      var ipo := RowToIpo(cells, month, year, withYear, withoutYear).value;
      && ipo.companyName == cells[0] && ipo.price == cells[4] && ipo.totalIssueAmount == cells[5]
      && ipo.exchange == cells[6] && ipo.leadManager == cells[7]
      && Some(ipo.openDate) == ParseDate(cells[1], year, withYear, withoutYear)
      && Some(ipo.closeDate) == ParseDate(cells[2], year, withYear, withoutYear)
      && (ipo.listDate == YetToList <==> |cells[3]| == 0 || cells[3] == YetToListText)
  {
  }

  lemma {:induction false} KeptAppend(a: seq<seq<string>>, b: seq<seq<string>>, month: int, year: int,
                                      withYear: string -> Option<Date>, withoutYear: string -> Option<MonthDay>)
    ensures Kept(a + b, month, year, withYear, withoutYear) ==
      Kept(a, month, year, withYear, withoutYear) + Kept(b, month, year, withYear, withoutYear)
    decreases |b|
  {
    if |b| == 0 {
      assert a + b == a;
    } else {
      var b0 := b[..|b| - 1];
      KeptAppend(a, b0, month, year, withYear, withoutYear);
      assert (a + b)[..|a + b| - 1] == a + b0;
      assert (a + b)[|a + b| - 1] == b[|b| - 1];
    }
  }

  /** Every kept record closes in the requested month, and no row yields
      more than one record. */
  lemma {:induction false} KeptSound(rows: seq<seq<string>>, month: int, year: int,
                                     withYear: string -> Option<Date>, withoutYear: string -> Option<MonthDay>)
    ensures |Kept(rows, month, year, withYear, withoutYear)| <= |rows|
    ensures forall j :: 0 <= j < |Kept(rows, month, year, withYear, withoutYear)| ==>
      Kept(rows, month, year, withYear, withoutYear)[j].closeDate.month == month
    decreases |rows|
  {
    if |rows| > 0 {
      KeptSound(rows[..|rows| - 1], month, year, withYear, withoutYear);
      RowToIpoSpec(rows[|rows| - 1], month, year, withYear, withoutYear);
    }
  }

  /** The first row is always dropped as the header, whatever it holds, and
      the remaining rows are filtered independently, in order. */
  lemma ExtractHeader(header: seq<string>, rows: seq<seq<string>>, row: seq<string>, month: int, year: int,
                      withYear: string -> Option<Date>, withoutYear: string -> Option<MonthDay>)
    ensures Extract([header] + rows, month, year, withYear, withoutYear) == Kept(rows, month, year, withYear, withoutYear)
    ensures Kept(rows + [row], month, year, withYear, withoutYear) ==
      Kept(rows, month, year, withYear, withoutYear)
        + (if RowToIpo(row, month, year, withYear, withoutYear).Some? then [RowToIpo(row, month, year, withYear, withoutYear).value] else [])
  {
    assert ([header] + rows)[1..] == rows;
    assert (rows + [row])[..|rows|] == rows;
  }

  // ---------------------------------------------------------------------------
  // fetch_ipo_data

  function MonthError(month: int): string {
    "ValueError: Invalid month: " + Show(month) + ". Month must be between 1 and 12."
  }

  function YearError(year: int): string {
    "ValueError: Invalid year: " + Show(year) + ". Year must be between 2000 and 2100."
  }

  /** `fetch_ipo_data(month, year)` on the page the chosen fetcher obtained.
      Invalid arguments raise `ValueError` before any fetch; every exception
      after validation becomes a report with no records and an error text. */
  function FetchIpoData(month: int, year: int, page: Page, withYear: string -> Option<Date>,
                        withoutYear: string -> Option<MonthDay>): Result<Report>
  {
    if !(1 <= month <= 12) then Err(MonthError(month))
    else if year < MinYear || year > MaxYear then Err(YearError(year))
    else match page
      case FetchFailed(reason) => Ok(Report(year, month, MonthName(month), 0, [], Some(FetchFailedPrefix + reason)))
      case NoTable => Ok(Report(year, month, MonthName(month), 0, [], Some(NoTableMsg)))
      case Table(rows) =>
        var ipos := Extract(rows, month, year, withYear, withoutYear);
        Ok(Report(year, month, MonthName(month), |ipos|, ipos, None))
  }

  /** Validation comes first and does not depend on the page: a month
      outside 1..12 is rejected with the month message, and otherwise a year
      outside 2000..2100 with the year message. Valid arguments always give a
      report. */
  lemma FetchValidation(month: int, year: int, page: Page, withYear: string -> Option<Date>,
                        withoutYear: string -> Option<MonthDay>)
    ensures !(1 <= month <= 12) ==> FetchIpoData(month, year, page, withYear, withoutYear) == Err(MonthError(month))
    ensures 1 <= month <= 12 && (year < MinYear || year > MaxYear) ==>
      FetchIpoData(month, year, page, withYear, withoutYear) == Err(YearError(year))
    ensures FetchIpoData(month, year, page, withYear, withoutYear).Ok? <==> 1 <= month <= 12 && MinYear <= year <= MaxYear
  {
  }

  /** Every report echoes the request, names the requested month, and counts
      exactly the records it holds; a failed fetch or a missing table gives no
      records and an error text, and a table gives the filtered rows with no
      error. */
  lemma FetchReport(month: int, year: int, page: Page, withYear: string -> Option<Date>,
                    withoutYear: string -> Option<MonthDay>)
    requires 1 <= month <= 12 && MinYear <= year <= MaxYear
    ensures var r := FetchIpoData(month, year, page, withYear, withoutYear).value;
      && r.year == year && r.month == month && r.monthName == MonthName(month)
      && r.totalIpos == |r.ipos|
      && (page.FetchFailed? ==> r.ipos == [] && r.error == Some(FetchFailedPrefix + page.reason))
      && (page.NoTable? ==> r.ipos == [] && r.error == Some(NoTableMsg))
      && (page.Table? ==> r.error.None? && r.ipos == Extract(page.rows, month, year, withYear, withoutYear))
      && forall j :: 0 <= j < |r.ipos| ==> r.ipos[j].closeDate.month == month
  {
    if page.Table? && |page.rows| > 0 {
      KeptSound(page.rows[1..], month, year, withYear, withoutYear);
    }
  }
}
