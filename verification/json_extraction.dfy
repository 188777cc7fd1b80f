/** `extract_json_from_string`: `re.search(r'(\{.*\}|\[.*\])', text, re.DOTALL)`
    followed by `json.loads` of the matched text, with `[]` whenever there is
    no match or the match does not parse.

    The search is written out as the regular-expression engine runs it: it
    tries the start positions from left to right; at a start holding `{` (or
    `[`) the greedy `.*` runs to the end of the text and backs off to the last
    `}` (or `]`) after the start. The declarative description of the same
    choice, "the leftmost start of any match, and the longest match from it",
    is `IsMatch` plus the contracts of `Search`. */
module JsonExtraction {
  import opened Py

  /** A half-open span `text[start..end]`. */
  datatype Span = Span(start: nat, end: nat)

  predicate IsOpener(c: char) {
    c == '{' || c == '['
  }

  function CloserOf(c: char): char
    requires IsOpener(c)
  {
    if c == '{' then '}' else ']'
  }

  /** `text[i..j]` is matched by `\{.*\}` or by `\[.*\]`, where `.` matches
      every character (DOTALL). */
  predicate IsMatch(text: string, i: int, j: int) {
    0 <= i && i + 2 <= j <= |text| && IsOpener(text[i]) && text[j - 1] == CloserOf(text[i])
  }

  /** The last index in `[lo, hi)` holding `c`. */
  function LastIndex(text: string, c: char, lo: nat, hi: nat): (r: Option<nat>)
    requires lo <= hi <= |text|
    ensures r.Some? ==> lo <= r.value < hi && text[r.value] == c
    ensures r.Some? ==> forall m :: r.value < m < hi ==> text[m] != c
    ensures r.None? ==> forall m :: lo <= m < hi ==> text[m] != c
    decreases hi
  {
    if hi == lo then None
    else if text[hi - 1] == c then Some(hi - 1)
    else LastIndex(text, c, lo, hi - 1)
  }

  /** The end of the greedy match that starts at `i`, if one starts there. */
  function MatchAt(text: string, i: nat): (r: Option<nat>)
    requires i < |text|
    ensures r.Some? ==> IsMatch(text, i, r.value)
    ensures r.Some? ==> forall j :: r.value < j ==> !IsMatch(text, i, j)
    ensures r.None? ==> forall j :: !IsMatch(text, i, j)
  {
    if !IsOpener(text[i]) then None
    else
      match LastIndex(text, CloserOf(text[i]), i + 1, |text|)
      case None => None
      case Some(k) => Some(k + 1)
  }

  /** The search from start position `i` onwards. */
  function SearchFrom(text: string, i: nat): (r: Option<Span>)
    requires i <= |text|
    ensures r.Some? ==> i <= r.value.start && IsMatch(text, r.value.start, r.value.end)
    ensures r.Some? ==> forall i', j :: i <= i' < r.value.start ==> !IsMatch(text, i', j)
    ensures r.Some? ==> forall j :: r.value.end < j ==> !IsMatch(text, r.value.start, j)
    ensures r.None? ==> forall i', j :: i <= i' ==> !IsMatch(text, i', j)
    decreases |text| - i
  {
    if i == |text| then None
    else
      match MatchAt(text, i)
      case Some(j) => Some(Span(i, j))
      case None => SearchFrom(text, i + 1)
  }

  /** `re.search(r'(\{.*\}|\[.*\])', text, re.DOTALL)`: the span of group 1. */
  function Search(text: string): (r: Option<Span>)
    ensures r.None? <==> forall i, j :: !IsMatch(text, i, j)
    ensures r.Some? ==> IsMatch(text, r.value.start, r.value.end)
    ensures r.Some? ==> forall i, j :: i < r.value.start ==> !IsMatch(text, i, j)
    ensures r.Some? ==> forall j :: r.value.end < j ==> !IsMatch(text, r.value.start, j)
    ensures r.Some? ==> r.value.end - r.value.start >= 2
    ensures r.Some? ==> forall m :: r.value.end <= m < |text| ==> text[m] != CloserOf(text[r.value.start])
  {
    var r := SearchFrom(text, 0);
    if r.Some? then
      NoCloserAfterLongestMatch(text, r.value);
      r
    else
      r
  }

  /** Past the end of a longest match there is no closer of its kind: one
      would extend the match. */
  lemma NoCloserAfterLongestMatch(text: string, sp: Span)
    requires IsMatch(text, sp.start, sp.end)
    requires forall j :: sp.end < j ==> !IsMatch(text, sp.start, j)
    ensures forall m :: sp.end <= m < |text| ==> text[m] != CloserOf(text[sp.start])
  {
    forall m | sp.end <= m < |text|
      ensures text[m] != CloserOf(text[sp.start])
    {
      if text[m] == CloserOf(text[sp.start]) {
        assert IsMatch(text, sp.start, m + 1);
      }
    }
  }

  /** What `json.loads` does with a text: it returns a value, raises
      `json.JSONDecodeError` on malformed input, or raises another exception
      (`RecursionError` on very deep nesting, `ValueError` on an integer
      literal longer than Python's digit limit). */
  datatype Loaded = Parsed(value: Json) | DecodeError | OtherError

  /** `extract_json_from_string(text)`, with `json.loads` given as `parse`.
      Only `json.JSONDecodeError` is caught there; `None` is the run in which
      another exception of `json.loads` leaves the function. */
  function ExtractJson(text: string, parse: string -> Loaded): (r: Option<Json>)
    ensures (forall i, j :: !IsMatch(text, i, j)) ==> r == Some(JArr([]))
    ensures Search(text).Some? ==>
      var loaded := parse(text[Search(text).value.start..Search(text).value.end]);
      && (loaded.Parsed? ==> r == Some(loaded.value))
      && (loaded.DecodeError? ==> r == Some(JArr([])))
      && (loaded.OtherError? ==> r.None?)
  {
    match Search(text)
    case None => Some(JArr([]))
    case Some(sp) =>
      match parse(text[sp.start..sp.end])
      case Parsed(v) => Some(v)
      case DecodeError => Some(JArr([]))
      case OtherError => None
  }

  /** Whatever the span `text[i..j]` is, when it is the leftmost match and
      the longest from its start, it is the text handed to `json.loads`. */
  lemma ExtractsLeftmostLongest(text: string, parse: string -> Loaded, i: nat, j: nat)
    requires IsMatch(text, i, j)
    requires forall i', j' :: i' < i ==> !IsMatch(text, i', j')
    requires forall j' :: j < j' ==> !IsMatch(text, i, j')
    ensures Search(text) == Some(Span(i, j))
    ensures parse(text[i..j]).Parsed? ==> ExtractJson(text, parse) == Some(parse(text[i..j]).value)
    ensures parse(text[i..j]).DecodeError? ==> ExtractJson(text, parse) == Some(JArr([]))
    ensures parse(text[i..j]).OtherError? ==> ExtractJson(text, parse).None?
  {
    var sp := Search(text).value;
    assert sp.start == i;
  }

  /** A reply that is itself a bracketed list, `[` ... `]`, is parsed whole. */
  lemma WholeListReplyParsed(text: string, parse: string -> Loaded)
    requires 2 <= |text| && text[0] == '[' && text[|text| - 1] == ']'
    ensures parse(text).Parsed? ==> ExtractJson(text, parse) == Some(parse(text).value)
  {
    assert IsMatch(text, 0, |text|);
    ExtractsLeftmostLongest(text, parse, 0, |text|);
    assert text[0..|text|] == text;
  }

  /** A reply holding neither `{` nor `[` yields `[]`, whatever the parser does. */
  lemma NoBracketYieldsEmpty(text: string, parse: string -> Loaded)
    requires forall k :: 0 <= k < |text| ==> !IsOpener(text[k])
    ensures ExtractJson(text, parse) == Some(JArr([]))
  {
  }

  /** A reply whose chosen span is malformed JSON yields `[]`. */
  lemma UnparsableSpanYieldsEmpty(text: string, parse: string -> Loaded)
    requires Search(text).Some?
    requires parse(text[Search(text).value.start..Search(text).value.end]).DecodeError?
    ensures ExtractJson(text, parse) == Some(JArr([]))
  {
  }

  /** The greedy span runs from the first opener that has a closer after it to
      the last such closer, across any text in between. */
  lemma WholeStringExample()
    ensures Search("{a} [b] {c}") == Some(Span(0, 11))
  {
    var text := "{a} [b] {c}";
    assert text[0] == '{' && text[10] == '}';
    assert IsMatch(text, 0, 11);
  }
}
