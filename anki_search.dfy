/**
 * gd-ankisearch (src/anki_search.cpp): the comma-separated field list of
 * `--show-fields`, the options of `search_params`, the Anki search query sent
 * to AnkiConnect in a `findCards` request, and the rule that decides which
 * table cells read "Not present".
 */
module AnkiSearch {
  import opened Wrappers
  import opened ByteStrings
  import opened Util
  import opened SplitView

  const Comma: Byte := ',' as int
  const Quote: Byte := '"' as int

  // ---------------------------------------------------------------- split_anki_field_names

  /**
   * `split_anki_field_names`: the `views::split(',')` of the option's value,
   * each piece copied into a string.
   */
  function SplitFieldNames(s: Bytes): seq<Bytes> {
    Split(s, Comma)
  }

  /** Empty names between, before and after commas are kept. */
  lemma EmptyNamesAreKept()
    ensures SplitFieldNames(Ascii(",a,,")) == [[], Ascii("a"), [], []]
  {
    var s := Ascii(",a,,");
    var a: Bytes := [97];
    assert Ascii("a") == a;
    assert Pieces(s[3..], Comma) == [[], []];
    assert Pieces(s[2..], Comma) == [[], [], []];
    var t := s[1..];
    assert t[0] == 97 && t[1..] == s[2..];
    assert [t[0]] + [] == a;
    assert Pieces(t, Comma) == [a] + [[], []];
    assert s[0] == Comma;
    assert Pieces(s, Comma) == [[]] + ([a] + [[], []]);
    assert [[]] + ([a] + [[], []]) == [[], a, [], []];
  }

  // ---------------------------------------------------------------- search_params

  /** The fields of `search_params`. */
  datatype SearchParams = SearchParams(word: Bytes, fieldName: Bytes, deckName: Bytes, showFields: seq<Bytes>)

  const NoParams := SearchParams([], [], [], [])

  /**
   * `search_params::assign`: `--field-name`, `--deck-name`, `--show-fields`
   * (split at commas) and `--word` set their field, and every other key is
   * accepted and ignored.
   */
  function Assign(p: SearchParams, key: Bytes, value: Bytes): (r: Result<SearchParams, Failure>)
    ensures r.Ok?
    ensures key == Ascii("--field-name") ==> r.value == p.(fieldName := value)
    ensures key == Ascii("--deck-name") ==> r.value == p.(deckName := value)
    ensures key == Ascii("--show-fields") ==> r.value == p.(showFields := SplitFieldNames(value))
    ensures key == Ascii("--word") ==> r.value == p.(word := value)
    ensures key !in {Ascii("--field-name"), Ascii("--deck-name"), Ascii("--show-fields"), Ascii("--word")} ==>
      r.value == p
  {
    if key == Ascii("--field-name") then Ok(p.(fieldName := value))
    else if key == Ascii("--deck-name") then Ok(p.(deckName := value))
    else if key == Ascii("--show-fields") then Ok(p.(showFields := SplitFieldNames(value)))
    else if key == Ascii("--word") then Ok(p.(word := value))
    else Ok(p)
  }

  function Word(p: SearchParams): Bytes {
    p.word
  }

  /** The scan of a list that has `pre` in front goes on exactly as the scan of the rest. */
  lemma {:induction false} ScanSkipsPrefix<P>(pre: seq<Bytes>, rest: seq<Bytes>, i: nat, p: P, assign: Assign<P>)
    requires i <= |rest|
    ensures ScanArgs(pre + rest, |pre| + i, p, assign) == ScanArgs(rest, i, p, assign)
    decreases |rest| - i
  {
    var args := pre + rest;
    if i < |rest| {
      assert args[|pre| + i] == rest[i];
      if i + 1 < |rest| {
        assert args[|pre| + i + 1] == rest[i + 1];
      }
      var value := if i + 1 < |rest| then rest[i + 1] else [];
      if !IsHelpFlag(rest[i]) {
        if StartsWithDash(rest[i]) {
          if value != [] && !StartsWithDash(value) {
            var r := assign(p, rest[i], value);
            if r.Ok? {
              if i + 2 <= |rest| {
                ScanSkipsPrefix(pre, rest, i + 2, r.value, assign);
              }
            }
          }
        } else {
          var r := assign(p, rest[i], value);
          if r.Ok? {
            ScanSkipsPrefix(pre, rest, i + 1, r.value, assign);
          }
        }
      }
    }
  }

  /** An option gd-ankisearch does not know, with a proper value, changes nothing. */
  lemma UnknownOptionIsIgnored(init: SearchParams, key: Bytes, value: Bytes, rest: seq<Bytes>)
    requires StartsWithDash(key) && !IsHelpFlag(key)
    requires key !in {Ascii("--field-name"), Ascii("--deck-name"), Ascii("--show-fields"), Ascii("--word")}
    requires value != [] && !StartsWithDash(value)
    ensures FilledArgs([key, value] + rest, init, Assign, Word) == FilledArgs(rest, init, Assign, Word)
  {
    var args := [key, value] + rest;
    assert args[0] == key && args[1] == value;
    ScanSkipsPrefix([key, value], rest, 0, init, Assign);
  }

  // ---------------------------------------------------------------- make_find_cards_request_str

  /** The parameters of the `findCards` request that matter here. */
  datatype FindCardsRequest = FindCardsRequest(action: Bytes, version: nat, query: Bytes)

  /** The request template, whose query searches the current deck. */
  function Template(): FindCardsRequest {
    FindCardsRequest(Ascii("findCards"), 6, Ascii("deck:current"))
  }

  /** `"FIELD:*WORD*"`: the word anywhere inside the field. */
  function FieldFilter(field: Bytes, query: Bytes): Bytes {
    [Quote] + field + Ascii(":*") + query + Ascii("*") + [Quote]
  }

  /** `"deck:DECK" QUERY`: only cards of that deck. */
  function DeckFilter(deck: Bytes, query: Bytes): Bytes {
    [Quote] + Ascii("deck:") + deck + [Quote] + Ascii(" ") + query
  }

  /** What is written before the word: the deck filter's head, then the field filter's. */
  function QueryHead(p: SearchParams): Bytes {
    (if p.deckName == [] then [] else [Quote] + Ascii("deck:") + p.deckName + [Quote] + Ascii(" "))
    + (if p.fieldName == [] then [] else [Quote] + p.fieldName + Ascii(":*"))
  }

  /** What is written after the word: the end of the field filter. */
  function QueryTail(p: SearchParams): Bytes {
    if p.fieldName == [] then [] else Ascii("*") + [Quote]
  }

  /**
   * `make_find_cards_request_str`: the query starts as the word, is wrapped
   * in the field filter when a field name is given, then prefixed with the
   * deck filter when a deck name is given; it replaces the template's query.
   */
  method MakeFindCardsRequest(p: SearchParams) returns (request: FindCardsRequest)
    ensures request.action == Ascii("findCards") && request.version == 6
    ensures request.query == QueryHead(p) + p.word + QueryTail(p)
  {
    request := Template();
    var query := p.word;
    if p.fieldName != [] {
      query := FieldFilter(p.fieldName, query);
    }
    if p.deckName != [] {
      query := DeckFilter(p.deckName, query);
    }
    request := request.(query := query);
    QueryParts(p, query);
  }

  /** The query the method builds, as head, word and tail. */
  lemma QueryParts(p: SearchParams, query: Bytes)
    requires query == (var q := if p.fieldName != [] then FieldFilter(p.fieldName, p.word) else p.word;
                       if p.deckName != [] then DeckFilter(p.deckName, q) else q)
    ensures query == QueryHead(p) + p.word + QueryTail(p)
  {
  }

  /** Without a field or a deck name the query is the bare word, never the template's "deck:current" search. */
  lemma BareWordQuery(p: SearchParams)
    requires p.fieldName == [] && p.deckName == []
    ensures QueryHead(p) + p.word + QueryTail(p) == p.word
  {
  }

  /**
   * The query determines the word: for the same field and deck names, two
   * words give the same query only if they are the same word.
   */
  lemma QueryDeterminesWord(p: SearchParams, w: Bytes)
    requires QueryHead(p) + p.word + QueryTail(p) == QueryHead(p) + w + QueryTail(p)
    ensures w == p.word
  {
    var h := QueryHead(p);
    var t := QueryTail(p);
    var a := h + p.word + t;
    var b := h + w + t;
    assert |w| == |p.word|;
    assert a[|h|..|h| + |p.word|] == p.word;
    assert b[|h|..|h| + |w|] == w;
  }

  /** With a deck name, the query starts with the quoted deck filter and a space. */
  lemma DeckFilterComesFirst(p: SearchParams)
    requires p.deckName != []
    ensures var q := QueryHead(p) + p.word + QueryTail(p);
      var f := [Quote] + Ascii("deck:") + p.deckName + [Quote] + Ascii(" ");
      |f| <= |q| && q[..|f|] == f
  {
    var f := [Quote] + Ascii("deck:") + p.deckName + [Quote] + Ascii(" ");
    var rest := (if p.fieldName == [] then [] else [Quote] + p.fieldName + Ascii(":*")) + p.word + QueryTail(p);
    assert QueryHead(p) + p.word + QueryTail(p) == f + rest;
  }

  // ---------------------------------------------------------------- the cards table

  /** A cell of the table: a field's formatted text, or "Not present". */
  datatype Cell = Shown(text: Bytes) | NotPresent

  /**
   * The cell of one `--show-fields` name: the formatted value when the card
   * has the field and it is not empty, "Not present" otherwise. `format`
   * stands for `gd_format` with the media directory.
   */
  function FieldCell(fields: map<Bytes, Bytes>, name: Bytes, format: Bytes -> Bytes): (c: Cell)
    ensures c == NotPresent <==> name !in fields || fields[name] == []
  {
    if name in fields && fields[name] != [] then Shown(format(fields[name])) else NotPresent
  }

  /**
   * The loop over `show_fields` in `print_cards_info`: one cell per name, in
   * the order the names were given.
   */
  method RowCells(fields: map<Bytes, Bytes>, showFields: seq<Bytes>, format: Bytes -> Bytes)
    returns (cells: seq<Cell>)
    ensures |cells| == |showFields|
    ensures forall k :: 0 <= k < |cells| ==>
      (cells[k] == NotPresent <==> showFields[k] !in fields || fields[showFields[k]] == [])
    ensures forall k :: 0 <= k < |cells| ==> cells[k].Shown? ==> cells[k].text == format(fields[showFields[k]])
  {
    cells := [];
    for i := 0 to |showFields|
      invariant |cells| == i
      invariant forall k :: 0 <= k < i ==> cells[k] == FieldCell(fields, showFields[k], format)
    {
      cells := cells + [FieldCell(fields, showFields[i], format)];
    }
  }

  /** What `search_anki_cards` shows. */
  datatype Shown =
    | HelpText
    | ErrorMessage(reason: Reason)
    | NoCardsFound
    | CardsTable(params: SearchParams, cardIds: seq<nat>)
    | Terminated  // an exception neither `catch` clause takes ends the program

  /**
   * `search_anki_cards`: `fill_args` failing with `help_requested` shows the
   * help text and with a `runtime_error` its message; otherwise the card ids
   * AnkiConnect finds for the query (a parameter here) are listed, or
   * "No cards found." when there are none.
   */
  function SearchAnkiCards(args: seq<Bytes>, findCards: SearchParams -> seq<nat>): (r: Shown)
  {
    match FilledArgs(args, NoParams, Assign, Word)
    case Err(HelpRequested) => HelpText
    case Err(RuntimeError(reason)) => ErrorMessage(reason)
    case Err(OutOfRange) => Terminated
    case Ok(p) => if findCards(p) == [] then NoCardsFound else CardsTable(p, findCards(p))
  }

  /** No `--word` (or an empty one) shows the help text and never reaches AnkiConnect. */
  lemma NoWordShowsHelp(findCards: SearchParams -> seq<nat>)
    ensures SearchAnkiCards([], findCards) == HelpText
    ensures SearchAnkiCards([Ascii("--deck-name"), Ascii("Mining")], findCards) == HelpText
  {
    var args := [Ascii("--deck-name"), Ascii("Mining")];
    assert args[0] == Ascii("--deck-name");
    assert !IsHelpFlag(args[0]) && StartsWithDash(args[0]);
    assert args[1] != [] && !StartsWithDash(args[1]);
    assert ScanArgs(args, 2, NoParams.(deckName := Ascii("Mining")), Assign) == Ok(NoParams.(deckName := Ascii("Mining")));
  }

  /** A successful search lists exactly the ids found, and the word it searched for is not empty. */
  lemma TableListsFoundCards(args: seq<Bytes>, findCards: SearchParams -> seq<nat>)
    requires SearchAnkiCards(args, findCards).CardsTable?
    ensures var r := SearchAnkiCards(args, findCards);
      r.cardIds == findCards(r.params) && r.cardIds != [] && r.params.word != []
      && FilledArgs(args, NoParams, Assign, Word) == Ok(r.params)
  {
  }
}
