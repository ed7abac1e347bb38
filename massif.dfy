/**
 * gd-massif (src/massif.cpp): fetches the Massif search page for a word and
 * prints the lines of its example list: from the first line holding
 * `<li class="text-japanese">` up to, not including, the first line after it
 * holding `</ul>`. The HTTP request is a parameter of the model.
 */
module Massif {
  import opened Wrappers
  import opened ByteStrings
  import opened Util
  import opened SplitView

  const Newline: Byte := '\n' as int

  /** The seconds to wait for Massif when `--max-time` is absent or unreadable. */
  const DefaultMaxTime: nat := 6

  /** The fields of `massif_params`. */
  datatype MassifParams = MassifParams(maxTime: nat, word: Bytes)

  const InitialParams := MassifParams(DefaultMaxTime, [])

  /**
   * `massif_params::assign`: `--max-time` takes the number the value starts
   * with, or 6 seconds when it has none; `--word` sets the word; other keys are ignored.
   */
  function Assign(p: MassifParams, key: Bytes, value: Bytes): (r: Result<MassifParams, Failure>)
    ensures r.Ok?
    ensures key == Ascii("--max-time") ==>
      r.value.word == p.word
      && (ParseNumber(value).Some? ==> r.value.maxTime == ParseNumber(value).value)
      && (ParseNumber(value).None? ==> r.value.maxTime == DefaultMaxTime)
    ensures key == Ascii("--word") ==> r.value == p.(word := value)
    ensures key != Ascii("--max-time") && key != Ascii("--word") ==> r.value == p
  {
    if key == Ascii("--max-time") then
      Ok(p.(maxTime := match ParseNumber(value) case Some(n) => n case None => DefaultMaxTime))
    else if key == Ascii("--word") then Ok(p.(word := value))
    else Ok(p)
  }

  function Word(p: MassifParams): Bytes {
    p.word
  }

  /** "--max-time soon" falls back to six seconds; "--max-time 12s" waits twelve. */
  lemma MaxTimeFallsBack(p: MassifParams)
    ensures Assign(p, Ascii("--max-time"), Ascii("soon")).value.maxTime == 6
    ensures Assign(p, Ascii("--max-time"), Ascii("12s")).value.maxTime == 12
  {
    assert !IsDigit(Ascii("soon")[0]);
    var v := Ascii("12s");
    assert v == [49, 50, 115];
    assert v[1..] == [50, 115] && v[2..] == [115];
    assert DigitRun(v) == 2;
    assert v[..2] == [49, 50];
    assert [49, 50][..1] == [49] && [49][..0] == [];
    assert DecimalValue([49, 50]) == 12;
  }

  // ---------------------------------------------------------------- the line window

  /** The marker of the first example line. */
  function ListStart(): Bytes {
    Ascii("<li class=\"text-japanese\">")
  }

  /** The marker of the end of the list. */
  function ListEnd(): Bytes {
    Ascii("</ul>")
  }

  /** `views::drop_while(not contains(pat))`: the lines from the first one holding `pat`. */
  function DropUntil(lines: seq<Bytes>, pat: Bytes): seq<Bytes> {
    if lines == [] then []
    else if Contains(lines[0], pat) then lines
    else DropUntil(lines[1..], pat)
  }

  /** `views::take_while(not contains(pat))`: the lines before the first one holding `pat`. */
  function TakeUntil(lines: seq<Bytes>, pat: Bytes): seq<Bytes> {
    if lines == [] then []
    else if Contains(lines[0], pat) then []
    else [lines[0]] + TakeUntil(lines[1..], pat)
  }

  /** The lines of the page that are printed. */
  function ExampleLines(page: Bytes): seq<Bytes> {
    TakeUntil(DropUntil(Split(page, Newline), ListStart()), ListEnd())
  }

  /** The index of the first line from `i` on that holds `pat`, or the number of lines. */
  function FirstWith(lines: seq<Bytes>, pat: Bytes, i: nat): (k: nat)
    requires i <= |lines|
    ensures i <= k <= |lines|
    ensures k < |lines| ==> Contains(lines[k], pat)
    ensures forall m :: i <= m < k ==> !Contains(lines[m], pat)
    decreases |lines| - i
  {
    if i == |lines| || Contains(lines[i], pat) then i else FirstWith(lines, pat, i + 1)
  }

  lemma {:induction false} DropUntilIsSuffix(lines: seq<Bytes>, pat: Bytes, i: nat)
    requires i <= |lines|
    ensures DropUntil(lines[i..], pat) == lines[FirstWith(lines, pat, i)..]
    decreases |lines| - i
  {
    if i < |lines| && !Contains(lines[i], pat) {
      assert lines[i..][1..] == lines[i + 1..];
      DropUntilIsSuffix(lines, pat, i + 1);
    }
  }

  lemma {:induction false} TakeUntilIsPrefix(lines: seq<Bytes>, pat: Bytes, i: nat)
    requires i <= |lines|
    ensures TakeUntil(lines[i..], pat) == lines[i..FirstWith(lines, pat, i)]
    decreases |lines| - i
  {
    if i < |lines| && !Contains(lines[i], pat) {
      assert lines[i..][1..] == lines[i + 1..];
      TakeUntilIsPrefix(lines, pat, i + 1);
      assert lines[i..FirstWith(lines, pat, i)] == [lines[i]] + lines[i + 1..FirstWith(lines, pat, i)];
    }
  }

  /**
   * The printed lines are the contiguous run of page lines from the first
   * that holds the list start up to, not including, the first line from
   * there on that holds the list end: nothing before the start marker and
   * nothing from the end marker on is printed, and the run is in page order.
   */
  lemma ExampleWindow(page: Bytes)
    ensures var lines := Split(page, Newline);
      var start := FirstWith(lines, ListStart(), 0);
      var end := FirstWith(lines, ListEnd(), start);
      ExampleLines(page) == lines[start..end]
      && (forall m :: 0 <= m < start ==> !Contains(lines[m], ListStart()))
      && (start < end ==> Contains(lines[start], ListStart()))
      && (forall m :: start <= m < end ==> !Contains(lines[m], ListEnd()))
      && (end < |lines| ==> Contains(lines[end], ListEnd()))
  {
    var lines := Split(page, Newline);
    var start := FirstWith(lines, ListStart(), 0);
    assert lines[0..] == lines;
    DropUntilIsSuffix(lines, ListStart(), 0);
    TakeUntilIsPrefix(lines, ListEnd(), start);
  }

  /** A page without the start marker prints no example at all. */
  lemma NoStartNoExamples(page: Bytes)
    requires forall m :: 0 <= m < |Split(page, Newline)| ==> !Contains(Split(page, Newline)[m], ListStart())
    ensures ExampleLines(page) == []
  {
    ExampleWindow(page);
  }

  /** Every printed line is a whole line of the page, so none holds a newline. */
  lemma ExampleLinesAreLines(page: Bytes)
    ensures forall k :: 0 <= k < |ExampleLines(page)| ==> NoSep(ExampleLines(page)[k], Newline)
  {
    ExampleWindow(page);
    SplitRoundTrip(page, Newline);
    var lines := Split(page, Newline);
    var start := FirstWith(lines, ListStart(), 0);
    SliceKeepsNoSep(lines, start, FirstWith(lines, ListEnd(), start));
  }

  lemma SliceKeepsNoSep(lines: seq<Bytes>, a: nat, b: nat)
    requires a <= b <= |lines|
    requires forall k :: 0 <= k < |lines| ==> NoSep(lines[k], Newline)
    ensures forall k :: 0 <= k < b - a ==> NoSep(lines[a..b][k], Newline)
  {
    forall k | 0 <= k < b - a
      ensures NoSep(lines[a..b][k], Newline)
    {
      assert lines[a..b][k] == lines[a + k];
    }
  }

  // ---------------------------------------------------------------- fetch_massif_examples

  /** The search page for a word (the word goes into the URL as it is). */
  function SearchUrl(word: Bytes): Bytes {
    Ascii("https://massif.la/ja/search?q=") + word
  }

  /** An HTTP response: status code and body. */
  datatype Response = Response(status: int, text: Bytes)

  /**
   * `fetch_massif_examples`: GET the search page with the configured
   * timeout; a status other than 200 raises "Couldn't connect to Massif."
   * before anything is printed, otherwise the example lines are listed.
   */
  function FetchMassifExamples(p: MassifParams, get: (Bytes, nat) -> Response): (r: Result<seq<Bytes>, Failure>)
  {
    var response := get(SearchUrl(p.word), p.maxTime);
    if response.status != 200 then Err(RuntimeError(CouldNotConnectToMassif))
    else Ok(ExampleLines(response.text))
  }

  /** The request asks for the word with the configured timeout, and fails exactly on a status other than 200. */
  lemma FetchRules(p: MassifParams, get: (Bytes, nat) -> Response)
    ensures var response := get(SearchUrl(p.word), p.maxTime);
      (FetchMassifExamples(p, get).Err? <==> response.status != 200)
      && (FetchMassifExamples(p, get).Err? ==> FetchMassifExamples(p, get).error == RuntimeError(CouldNotConnectToMassif))
      && (FetchMassifExamples(p, get).Ok? ==> FetchMassifExamples(p, get).value == ExampleLines(response.text))
  {
  }

  /** What `massif` shows: the help text, an error message, the list, or nothing when an exception escapes both `catch` clauses. */
  datatype Shown = HelpText | ErrorMessage(reason: Reason) | ExampleList(lines: seq<Bytes>) | Terminated

  /** `massif`: parse the options, fetch, and show the list or what went wrong. */
  function RunMassif(args: seq<Bytes>, get: (Bytes, nat) -> Response): Shown {
    match FilledArgs(args, InitialParams, Assign, Word)
    case Err(HelpRequested) => HelpText
    case Err(RuntimeError(reason)) => ErrorMessage(reason)
    case Err(OutOfRange) => Terminated
    case Ok(p) =>
      match FetchMassifExamples(p, get)
      case Ok(lines) => ExampleList(lines)
      case Err(HelpRequested) => HelpText
      case Err(RuntimeError(reason)) => ErrorMessage(reason)
      case Err(OutOfRange) => Terminated
  }

  /** `gd-massif --word W` waits six seconds for the page of W. */
  lemma DefaultTimeout(word: Bytes, get: (Bytes, nat) -> Response)
    requires word != [] && !StartsWithDash(word)
    ensures get(SearchUrl(word), 6).status != 200 ==>
      RunMassif([Ascii("--word"), word], get) == ErrorMessage(CouldNotConnectToMassif)
    ensures get(SearchUrl(word), 6).status == 200 ==>
      RunMassif([Ascii("--word"), word], get) == ExampleList(ExampleLines(get(SearchUrl(word), 6).text))
  {
    var args := [Ascii("--word"), word];
    assert args[0] == Ascii("--word") && args[1] == word;
    assert args[0][2] != Ascii("--help")[2];
    assert !IsHelpFlag(args[0]) && StartsWithDash(args[0]);
    assert ScanArgs(args, 2, InitialParams.(word := word), Assign) == Ok(MassifParams(6, word));
  }
}
