/**
 * The shared helpers of src/util.h and src/util.cpp: the two exception types,
 * `raise_if`, the argument scanner `fill_args`, `parse_number`, the Anki card
 * class, and the byte-level string helpers `is_space`, `strtrim` and
 * `str_replace`.
 */
module Util {
  import opened Wrappers
  import opened ByteStrings

  /** Why a `runtime_error` was raised (the text of its message). */
  datatype Reason =
    | InvalidArgument                      // the default message of raise_if
    | UnrecognizedByte(b: Byte)            // "Can't recognize byte: ..."
    | DictionaryMissing(path: Bytes)       // "The dictionary file ... does not exist."
    | UnknownArgumentName(key: Bytes)      // "Unknown argument name: KEY"
    | CouldNotConnectToMassif              // "Couldn't connect to Massif."
    | DictionaryDirectoryMissing           // "Couldn't find dictionary directory."
    | TaggerFailed                         // "Failed to initialize Mecab tagger."
    | WordListMissing                      // "Couldn't find the word list."

  /** `help_requested`, `runtime_error`, and the `std::out_of_range` of `substr`. */
  datatype Failure =
    | HelpRequested
    | RuntimeError(reason: Reason)
    | OutOfRange

  /** `raise_if`: fails exactly when the condition holds. */
  function RaiseIf(cond: bool, reason: Reason): (r: Result<(), Failure>)
    ensures r.Err? <==> cond
    ensures r.Err? ==> r.error == RuntimeError(reason)
  {
    if cond then Err(RuntimeError(reason)) else Ok(())
  }

  // ---------------------------------------------------------------- fill_args

  predicate StartsWithDash(s: Bytes) {
    |s| > 0 && s[0] == '-' as int
  }

  predicate IsHelpFlag(s: Bytes) {
    s == Ascii("--help") || s == Ascii("-h")
  }

  /** A params struct's `assign(key, value)`, which may raise. */
  type Assign<!P> = (P, Bytes, Bytes) -> Result<P, Failure>

  /**
   * The loop of `fill_args` from position `i`: a help flag in key position
   * raises `help_requested`; a key starting with '-' needs a value that is
   * present, non-empty and not starting with '-' and advances by two; any other
   * key is assigned the next argument (or "") and advances by one.
   */
  function ScanArgs<P>(args: seq<Bytes>, i: nat, p: P, assign: Assign<P>): Result<P, Failure>
    requires i <= |args|
    decreases |args| - i
  {
    if i == |args| then Ok(p)
    else if IsHelpFlag(args[i]) then Err(HelpRequested)
    else
      var value := if i + 1 < |args| then args[i + 1] else [];
      if StartsWithDash(args[i]) then
        if value == [] || StartsWithDash(value) then Err(RuntimeError(InvalidArgument))
        else match assign(p, args[i], value)
          case Err(e) => Err(e)
          case Ok(p') => ScanArgs(args, i + 2, p', assign)
      else match assign(p, args[i], value)
        case Err(e) => Err(e)
        case Ok(p') => ScanArgs(args, i + 1, p', assign)
  }

  /** `fill_args`: scan every argument, then demand a non-empty word. */
  function FilledArgs<P>(args: seq<Bytes>, init: P, assign: Assign<P>, word: P -> Bytes): Result<P, Failure>
  {
    match ScanArgs(args, 0, init, assign)
    case Err(e) => Err(e)
    case Ok(p) => if word(p) == [] then Err(HelpRequested) else Ok(p)
  }

  method FillArgs<P>(args: seq<Bytes>, init: P, assign: Assign<P>, word: P -> Bytes)
    returns (r: Result<P, Failure>)
    ensures r == FilledArgs(args, init, assign, word)
  {
    var params := init;
    var it := 0;
    while it != |args|
      invariant it <= |args|
      invariant ScanArgs(args, 0, init, assign) == ScanArgs(args, it, params, assign)
      decreases |args| - it
    {
      if IsHelpFlag(args[it]) {
        return Err(HelpRequested);
      }
      var advance := 1;
      var value := if it + 1 < |args| then args[it + 1] else [];
      if StartsWithDash(args[it]) {
        var raised := RaiseIf(value == [] || StartsWithDash(value), InvalidArgument);
        if raised.Err? {
          return Err(raised.error);
        }
        advance := 2;
      }
      var outcome := assign(params, args[it], value);
      if outcome.Err? {
        return Err(outcome.error);
      }
      params := outcome.value;
      it := it + advance;
    }
    if word(params) == [] {
      return Err(HelpRequested);
    }
    return Ok(params);
  }

  /** A help flag in key position stops the scan before anything after it is looked at. */
  lemma {:induction false} HelpFlagStopsScan<P>(args: seq<Bytes>, p: P, assign: Assign<P>, rest: seq<Bytes>)
    requires |args| > 0 && IsHelpFlag(args[0])
    ensures ScanArgs(args + rest, 0, p, assign) == Err(HelpRequested)
  {
    assert (args + rest)[0] == args[0];
  }

  /** `--word -h`: the help flag in value position is an invalid value, not a request for help. */
  lemma DashValueIsInvalid<P>(key: Bytes, p: P, assign: Assign<P>, word: P -> Bytes)
    requires StartsWithDash(key) && !IsHelpFlag(key)
    ensures FilledArgs([key, Ascii("-h")], p, assign, word) == Err(RuntimeError(InvalidArgument))
  {
    assert StartsWithDash(Ascii("-h"));
  }

  /** A key without a dash still takes the next argument as its value but advances by one. */
  lemma {:induction false} PlainKeyAdvancesByOne<P>(args: seq<Bytes>, i: nat, p: P, assign: Assign<P>)
    requires i < |args| && !IsHelpFlag(args[i]) && !StartsWithDash(args[i])
    requires i + 1 < |args|
    requires assign(p, args[i], args[i + 1]).Ok?
    ensures ScanArgs(args, i, p, assign) == ScanArgs(args, i + 1, assign(p, args[i], args[i + 1]).value, assign)
  {
  }

  // ------------------------------------------------------------- parse_number

  predicate IsDigit(b: Byte) {
    '0' as int <= b <= '9' as int
  }

  /** The length of the run of decimal digits at the start of `s`. */
  function DigitRun(s: Bytes): (n: nat)
    ensures n <= |s|
    ensures forall k :: 0 <= k < n ==> IsDigit(s[k])
    ensures n < |s| ==> !IsDigit(s[n])
  {
    if s != [] && IsDigit(s[0]) then 1 + DigitRun(s[1..]) else 0
  }

  /** The value of a string of decimal digits. */
  function DecimalValue(d: Bytes): nat
    requires forall k :: 0 <= k < |d| ==> IsDigit(d[k])
  {
    if d == [] then 0
    else
      assert IsDigit(d[|d| - 1]);
      DecimalValue(d[..|d| - 1]) * 10 + (d[|d| - 1] - '0' as int)
  }

  /** The largest value of `std::size_t` (and of `uint64_t`) plus one. */
  const SizeLimit: nat := 0x1_0000_0000_0000_0000

  /**
   * `parse_number<std::size_t>`, that is `std::from_chars` in base 10: a
   * leading run of at least one digit whose value fits, with no sign and no
   * leading blanks; the bytes after the run are ignored.
   */
  function ParseNumber(s: Bytes): (r: Option<nat>)
    ensures r.Some? <==> DigitRun(s) > 0 && DecimalValue(s[..DigitRun(s)]) < SizeLimit
    ensures r.Some? ==> r.value < SizeLimit && r.value == DecimalValue(s[..DigitRun(s)])
  {
    var n := DigitRun(s);
    if n == 0 then None
    else
      var v := DecimalValue(s[..n]);
      if v < SizeLimit then Some(v) else None
  }

  /** The decimal rendering of a number, without sign or leading zeros. */
  function Decimal(n: nat): (d: Bytes)
    ensures |d| >= 1
    ensures forall k :: 0 <= k < |d| ==> IsDigit(d[k])
  {
    if n < 10 then ['0' as int + n] else Decimal(n / 10) + ['0' as int + n % 10]
  }

  lemma {:induction false} DecimalValueOfDecimal(n: nat)
    ensures DecimalValue(Decimal(n)) == n
  {
    if n >= 10 {
      var d := Decimal(n);
      assert d[..|d| - 1] == Decimal(n / 10);
      DecimalValueOfDecimal(n / 10);
    }
  }

  /** A number written in decimal and followed by a non-digit parses back to itself. */
  lemma ParseNumberOfDecimal(n: nat, tail: Bytes)
    requires n < SizeLimit
    requires tail == [] || !IsDigit(tail[0])
    ensures ParseNumber(Decimal(n) + tail) == Some(n)
  {
    var s := Decimal(n) + tail;
    DigitRunOfDigits(Decimal(n), tail);
    assert s[..DigitRun(s)] == Decimal(n);
    DecimalValueOfDecimal(n);
  }

  lemma {:induction false} DigitRunOfDigits(d: Bytes, tail: Bytes)
    requires forall k :: 0 <= k < |d| ==> IsDigit(d[k])
    requires tail == [] || !IsDigit(tail[0])
    ensures DigitRun(d + tail) == |d|
  {
    if d != [] {
      assert (d + tail)[1..] == d[1..] + tail;
      DigitRunOfDigits(d[1..], tail);
    } else {
      assert d + tail == tail;
    }
  }

  /** "12x" gives 12: the digits before the first other byte are read. */
  lemma ParseNumberReadsLeadingDigits(s: Bytes)
    requires s == [49, 50, 120]
    ensures s == Ascii("12x")
    ensures ParseNumber(s) == Some(12)
  {
    assert s[1..] == [50, 120] && s[2..] == [120];
    assert DigitRun(s[2..]) == 0;
    assert DigitRun(s[1..]) == 1;
    assert s[..2] == [49, 50];
    assert [49, 50][..1] == [49] && [49][..0] == [];
    assert DecimalValue([49]) == 1;
    assert DecimalValue([49, 50]) == 12;
  }

  /** "", "+5" and "-5" are rejected: no sign is accepted. */
  lemma ParseNumberRejectsSigns()
    ensures ParseNumber([]) == None
    ensures ParseNumber(Ascii("+5")) == None
    ensures ParseNumber(Ascii("-5")) == None
  {
    assert Ascii("+5")[0] == 43 && Ascii("-5")[0] == 45;
  }

  // ------------------------------------------------------ determine_card_class

  /** The CSS class of a card row, by Anki's card queue and card type. */
  datatype CardClass = Buried | Suspended | New | Learning | Review | Unknown

  /**
   * `determine_card_class`: the queue decides when it is one of -3..3;
   * otherwise the card type decides, and anything else is "unknown".
   */
  function DetermineCardClass(queue: int, cardType: int): (r: CardClass)
    ensures r == Buried <==> queue == -3 || queue == -2
    ensures r == Suspended <==> queue == -1
    ensures r == New <==> queue == 0 || (!(-3 <= queue <= 3) && cardType == 0)
    ensures r == Learning <==> queue == 1 || queue == 3 || (!(-3 <= queue <= 3) && (cardType == 1 || cardType == 3))
    ensures r == Review <==> queue == 2 || (!(-3 <= queue <= 3) && cardType == 2)
    ensures r == Unknown <==> !(-3 <= queue <= 3) && !(0 <= cardType <= 3)
  {
    match queue
    case -3 => Buried
    case -2 => Buried
    case -1 => Suspended
    case 0 => New
    case 1 => Learning
    case 3 => Learning
    case 2 => Review
    case _ =>
      match cardType
      case 0 => New
      case 1 => Learning
      case 3 => Learning
      case 2 => Review
      case _ => Unknown
  }

  // ------------------------------------------------------ is_space and strtrim

  /** `std::isspace` in the C locale: space, \t, \n, \v, \f and \r. */
  predicate IsSpace(b: Byte) {
    b == ' ' as int || 9 <= b <= 13
  }

  /** No byte of a multi-byte UTF-8 sequence counts as a space. */
  lemma NoSpaceAboveAscii(b: Byte)
    requires b >= 0x80
    ensures !IsSpace(b)
  {
  }

  /** `std::views::drop_while(is_space)`. */
  function DropSpaces(s: Bytes): (r: Bytes)
    ensures |r| <= |s| && r == s[|s| - |r|..]
    ensures forall k :: 0 <= k < |s| - |r| ==> IsSpace(s[k])
    ensures r != [] ==> !IsSpace(r[0])
  {
    if s != [] && IsSpace(s[0]) then DropSpaces(s[1..]) else s
  }

  /**
   * `reverse | drop_while(is_space) | reverse`: the reversed view is walked
   * from the last byte, so the spaces at the end are dropped.
   */
  function DropTrailingSpaces(s: Bytes): (t: Bytes)
    ensures |t| <= |s| && t == s[..|t|]
    ensures forall k :: |t| <= k < |s| ==> IsSpace(s[k])
    ensures t != [] ==> !IsSpace(t[|t| - 1])
  {
    if s != [] && IsSpace(s[|s| - 1]) then DropTrailingSpaces(s[..|s| - 1]) else s
  }

  /** `strtrim`: reverse, drop spaces, reverse back, drop spaces. */
  function StrTrim(s: Bytes): Bytes {
    DropSpaces(DropTrailingSpaces(s))
  }

  /** Where the trimmed text starts in `s`. */
  function TrimStart(s: Bytes): nat {
    |DropTrailingSpaces(s)| - |StrTrim(s)|
  }

  /**
   * The trimmed text is the contiguous part of `s` between a run of leading
   * spaces and a run of trailing spaces; it neither starts nor ends with a
   * space, and the bytes inside it, spaces included, are kept.
   */
  lemma StrTrimIsInterior(s: Bytes)
    ensures TrimStart(s) + |StrTrim(s)| <= |s|
    ensures StrTrim(s) == s[TrimStart(s)..TrimStart(s) + |StrTrim(s)|]
    ensures forall k :: 0 <= k < TrimStart(s) ==> IsSpace(s[k])
    ensures forall k :: TrimStart(s) + |StrTrim(s)| <= k < |s| ==> IsSpace(s[k])
    ensures StrTrim(s) != [] ==> !IsSpace(StrTrim(s)[0]) && !IsSpace(StrTrim(s)[|StrTrim(s)| - 1])
  {
    var t := DropTrailingSpaces(s);
    var r := DropSpaces(t);
    assert StrTrim(s) == r && TrimStart(s) == |t| - |r|;
    InteriorOfDrops(s, t, r);
  }

  /** A prefix of `s` without its trailing spaces, then a suffix of that without its leading spaces. */
  lemma InteriorOfDrops(s: Bytes, t: Bytes, r: Bytes)
    requires |t| <= |s| && t == s[..|t|] && forall k :: |t| <= k < |s| ==> IsSpace(s[k])
    requires t != [] ==> !IsSpace(t[|t| - 1])
    requires |r| <= |t| && r == t[|t| - |r|..] && forall k :: 0 <= k < |t| - |r| ==> IsSpace(t[k])
    requires r != [] ==> !IsSpace(r[0])
    ensures r == s[|t| - |r|..|t|]
    ensures forall k :: 0 <= k < |t| - |r| ==> IsSpace(s[k])
    ensures r != [] ==> !IsSpace(r[|r| - 1])
  {
    forall k | 0 <= k < |t| - |r| ensures IsSpace(s[k]) {
      assert s[k] == t[k];
    }
    if r != [] {
      assert r[|r| - 1] == t[|t| - 1];
    }
  }

  /** Trimming twice is trimming once. */
  lemma {:induction false} StrTrimIdempotent(s: Bytes)
    ensures StrTrim(StrTrim(s)) == StrTrim(s)
  {
    var r := StrTrim(s);
    StrTrimIsInterior(s);
    StrTrimIsInterior(r);
    if r != [] {
      assert DropTrailingSpaces(r) == r;
    }
  }

  /** A string of spaces only trims to the empty string. */
  lemma {:induction false} StrTrimAllSpaces(s: Bytes)
    requires forall k :: 0 <= k < |s| ==> IsSpace(s[k])
    ensures StrTrim(s) == []
  {
    StrTrimIsInterior(s);
  }

  // ---------------------------------------------------------------- str_replace

  /**
   * `str_replace`: only the first occurrence of `from` is rewritten; with no
   * occurrence the string is unchanged. An empty `from` is found at 0.
   */
  function StrReplace(str: Bytes, from: Bytes, to: Bytes): (r: Bytes)
    ensures FindFrom(str, from, 0).None? ==> r == str
    ensures FindFrom(str, from, 0).Some? ==> OccursAt(str, from, FindFrom(str, from, 0).value)
    ensures FindFrom(str, from, 0).Some? ==>
      var i := FindFrom(str, from, 0).value;
      r == str[..i] + to + str[i + |from|..] &&
      (forall j :: 0 <= j < i ==> !OccursAt(str, from, j))
  {
    FindFromFinds(str, from, 0);
    match FindFrom(str, from, 0)
    case None => str
    case Some(i) => str[..i] + to + str[i + |from|..]
  }

  /** `std::erase_if(s, is_space)`. */
  function EraseSpaces(s: Bytes): (r: Bytes)
    ensures r == EraseIf(s, IsSpace)
    ensures forall k :: 0 <= k < |r| ==> !IsSpace(r[k])
    ensures forall b :: b in s && !IsSpace(b) ==> b in r
    ensures (forall k :: 0 <= k < |s| ==> !IsSpace(s[k])) ==> r == s
  {
    EraseIf(s, IsSpace)
  }

  /** `std::string::substr(pos, count)`, which raises `out_of_range` when `pos` is past the end. */
  function SubstrChecked(s: Bytes, pos: nat, count: nat): (r: Result<Bytes, Failure>)
    ensures r.Err? <==> pos > |s|
    ensures r.Err? ==> r.error == OutOfRange
    ensures r.Ok? ==> r.value == Substr(s, pos, count)
    ensures r.Ok? ==> r.value <= s[pos..] && |r.value| == (if pos + count <= |s| then count else |s| - pos)
  {
    if pos > |s| then Err(OutOfRange) else Ok(Substr(s, pos, count))
  }
}
