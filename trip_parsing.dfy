/** Trip-file parsing of mykelu/parse_trip_json.py.  Each line of the file
    holds a key tuple `('vid', 'route', 'pattern', 'start')` followed by `):`
    and a JSON list of stop objects; every stop becomes one row holding the
    stop's fields overlaid by the four key fields.  The numeric columns are
    then reduced to their decimal digits.  The JSON decoder is a parameter. */
module TripParsing {
  import opened Common
  import opened Dicts

  /** A row of the table: column name -> text. */
  type Row = Dict<string>

  /** `json.loads` of a stop list: for each stop object, its members in
      source order, or `None` when the text is not such a list. */
  type Decoder = string -> Option<seq<seq<(string, string)>>>

  // ------------------------------------------------------- string helpers

  predicate OccursAt(s: string, pat: string, i: int) {
    0 <= i && i + |pat| <= |s| && s[i..i + |pat|] == pat
  }

  function FindFrom(s: string, pat: string, i: nat): (r: int)
    requires i <= |s|
    ensures r == -1 ==> forall j :: i <= j && OccursAt(s, pat, j) ==> false
    ensures r != -1 ==> i <= r && OccursAt(s, pat, r) && forall j :: i <= j < r ==> !OccursAt(s, pat, j)
    decreases |s| - i
  {
    if i + |pat| > |s| then -1
    else if s[i..i + |pat|] == pat then i
    else if i == |s| then -1
    else FindFrom(s, pat, i + 1)
  }

  /** `s.find(pat)`: the lowest index where `pat` occurs, or -1. */
  function Find(s: string, pat: string): (r: int)
    ensures r == -1 <==> forall j :: OccursAt(s, pat, j) ==> false
    ensures r != -1 ==> OccursAt(s, pat, r) && forall j :: 0 <= j < r ==> !OccursAt(s, pat, j)
  {
    FindFrom(s, pat, 0)
  }

  /** An index of a Python slice, normalised: negative counts from the end,
      and both ends are clamped to the string. */
  function SliceIndex(n: nat, i: int): (r: nat)
    ensures r <= n
  {
    if i < 0 then (if n + i < 0 then 0 else n + i)
    else if i > n then n
    else i
  }

  /** `s[lo:hi]` with Python's rules for negative and out-of-range bounds. */
  function PySlice(s: string, lo: int, hi: int): string {
    var a := SliceIndex(|s|, lo);
    var b := SliceIndex(|s|, hi);
    if a < b then s[a..b] else ""
  }

  /** `s.replace("'", '"')` */
  function ReplaceQuotes(s: string): (r: string)
    ensures |r| == |s|
    ensures '\'' !in r
  {
    seq(|s|, i requires 0 <= i < |s| => if s[i] == '\'' then '"' else s[i])
  }

  /** Rewriting quotes is done character by character, so it can be done
      before or after slicing: the line's slices are the slices of the
      rewritten line. */
  lemma ReplaceQuotesSlice(s: string, lo: int, hi: int)
    ensures ReplaceQuotes(PySlice(s, lo, hi)) == PySlice(ReplaceQuotes(s), lo, hi)
  {
    var a := SliceIndex(|s|, lo);
    var b := SliceIndex(|s|, hi);
    if a < b {
      assert forall i :: 0 <= i < b - a ==> s[a..b][i] == s[a + i];
    }
  }

  /** Every single quote becomes a double quote: the double quotes of the
      result are the double and single quotes of the text, and every other
      character occurs as often as before. */
  lemma {:induction false} ReplaceQuotesCount(s: string)
    ensures multiset(ReplaceQuotes(s))['"'] == multiset(s)['"'] + multiset(s)['\'']
    ensures forall c :: c != '"' && c != '\'' ==> multiset(ReplaceQuotes(s))[c] == multiset(s)[c]
  {
    if s != [] {
      var init := s[..|s| - 1];
      var last := s[|s| - 1];
      ReplaceQuotesCount(init);
      assert s == init + [last];
      assert ReplaceQuotes(s) == ReplaceQuotes(init) + [if last == '\'' then '"' else last];
    }
  }

  /** Text without single quotes is left as it is. */
  lemma ReplaceQuotesWithoutQuotes(s: string)
    requires '\'' !in s
    ensures ReplaceQuotes(s) == s
  {
    assert forall i :: 0 <= i < |s| ==> s[i] != '\'';
  }

  /** `sep.join(pieces)` */
  function JoinWith(pieces: seq<string>, sep: string): string {
    if pieces == [] then ""
    else if |pieces| == 1 then pieces[0]
    else pieces[0] + sep + JoinWith(pieces[1..], sep)
  }

  /** Nothing found before the first occurrence stays absent in the prefix. */
  lemma NoOccurrenceInPrefix(s: string, sep: string, i: nat)
    requires i <= |s| && |sep| > 0
    requires forall j :: 0 <= j < i ==> !OccursAt(s, sep, j)
    ensures Find(s[..i], sep) == -1
  {
    forall j | OccursAt(s[..i], sep, j) ensures false {
      assert s[..i][j..j + |sep|] == s[j..j + |sep|];
      assert OccursAt(s, sep, j);
    }
  }

  /** `s.split(sep)`: the text before the first occurrence of `sep`, then the
      split of what follows it.  Joining the pieces gives `s` back, and no
      piece contains `sep`. */
  function SplitOn(s: string, sep: string): (pieces: seq<string>)
    requires |sep| > 0
    ensures |pieces| >= 1
    ensures Find(s, sep) == -1 <==> |pieces| == 1
    ensures |pieces| > 1 ==> Find(s, sep) == |pieces[0]|
    ensures JoinWith(pieces, sep) == s
    ensures forall j :: 0 <= j < |pieces| ==> Find(pieces[j], sep) == -1
    decreases |s|
  {
    var i := Find(s, sep);
    if i == -1 then [s]
    else
      var rest := SplitOn(s[i + |sep|..], sep);
      NoOccurrenceInPrefix(s, sep, i);
      assert s == s[..i] + sep + s[i + |sep|..];
      [s[..i]] + rest
  }

  // ------------------------------------------------------------ one line

  /** The separator between the key tuple and the stop list. */
  const KeyEnd: string := "):"

  /** `('vehicle_id', 'route', 'pattern', 'start_time')` */
  const KeyNames: seq<string> := ["vehicle_id", "route", "pattern", "start_time"]

  /** `line[2 : line.find("):")]` with quotes rewritten.  With the separator at
      index 2 or later this is the text between; without it, the end index
      -1 drops the last character; a separator before index 2 leaves nothing. */
  function KeyText(line: string): (t: string)
    ensures var i := Find(line, KeyEnd);
      && (2 <= i ==> t == ReplaceQuotes(line[2..i]))
      && (i == -1 && |line| >= 3 ==> t == ReplaceQuotes(line[2..|line| - 1]))
      && (0 <= i < 2 ==> t == "")
      && (i == -1 && |line| < 3 ==> t == "")
  {
    ReplaceQuotes(PySlice(line, 2, Find(line, KeyEnd)))
  }

  /** `line[line.find("):") + 3 : -2]` with quotes rewritten: what lies after
      the separator and one more character, without the last two characters. */
  function PayloadText(line: string): (t: string)
    ensures var i := Find(line, KeyEnd);
      && (0 <= i && i + 3 <= |line| - 2 ==> t == ReplaceQuotes(line[i + 3..|line| - 2]))
      && (0 <= i && i + 3 > |line| - 2 ==> t == "")
      && (i == -1 && |line| >= 4 ==> t == ReplaceQuotes(line[2..|line| - 2]))
      && (i == -1 && |line| < 4 ==> t == "")
  {
    ReplaceQuotes(PySlice(line, Find(line, KeyEnd) + 3, -2))
  }

  /** `zip(a, b)`: pairs up to the shorter length. */
  function Zip(a: seq<string>, b: seq<string>): seq<(string, string)> {
    seq(if |a| < |b| then |a| else |b|, i requires 0 <= i < |a| && i < |b| => (a[i], b[i]))
  }

  /** `{k: v for k, v in zip(keys, key_values)}`: the first values are assigned
      to the key names in order, as many as there are of the shorter. */
  function KeyDict(values: seq<string>): (d: Row)
    ensures Valid(d)
    ensures |d.keys| == if |values| < 4 then |values| else 4
    ensures forall i :: 0 <= i < |d.keys| ==> d.keys[i] == KeyNames[i] && d.items[KeyNames[i]] == values[i]
    ensures forall k :: k in d.items <==> k in d.keys
  {
    var pairs := Zip(KeyNames, values);
    assert |pairs| == if |values| < 4 then |values| else 4;
    assert forall i :: 0 <= i < |pairs| ==> pairs[i] == (KeyNames[i], values[i]);
    FromDistinctPairs(pairs);
    FromPairs(pairs)
  }

  /** The key fields of a line. */
  function LineKeys(line: string): Row {
    KeyDict(SplitOn(KeyText(line), ", "))
  }

  /** `{**stop, **key_dict}`: the stop's fields in their order, then the key
      fields it lacks; on a name clash the key field wins. */
  function Overlay(members: seq<(string, string)>, keys: Row): (row: Row)
    requires Valid(keys)
    ensures Valid(row)
  {
    Update(FromPairs(members), keys)
  }

  /** The row has the fields of both; a key field overrides the stop's field
      of the same name, which keeps its place among the stop's fields. */
  lemma OverlayFields(members: seq<(string, string)>, keys: Row)
    requires Valid(keys)
    ensures var stop := FromPairs(members); var row := Overlay(members, keys);
      && (forall k :: k in row.items <==> k in stop.items || k in keys.items)
      && (forall k :: k in keys.items ==> row.items[k] == keys.items[k])
      && (forall k :: k in stop.items && k !in keys.items ==> row.items[k] == stop.items[k])
      && row.keys == stop.keys + Missing(keys.keys, stop.items.Keys)
  {
  }

  /** The rows of one line: one per decoded stop, in order, or `None` when
      `json.loads` fails. */
  function LineRows(line: string, decode: Decoder): Option<seq<Row>> {
    match decode(PayloadText(line))
    case None => None
    case Some(stops) =>
      var keys := LineKeys(line);
      Some(seq(|stops|, j requires 0 <= j < |stops| => Overlay(stops[j], keys)))
  }

  /** A line that decodes yields the overlay of each of its stops. */
  lemma LineRowsOverlay(line: string, decode: Decoder)
    requires decode(PayloadText(line)).Some?
    ensures LineRows(line, decode).Some?
    ensures var stops := decode(PayloadText(line)).value;
      && |LineRows(line, decode).value| == |stops|
      && forall j :: 0 <= j < |stops| ==> LineRows(line, decode).value[j] == Overlay(stops[j], LineKeys(line))
  {
  }

  /** A line fails exactly when its stop list does not decode; otherwise it
      yields one row per stop, in order, each holding the stop's fields
      overridden and extended by the line's key fields. */
  lemma LineRowsSpec(line: string, decode: Decoder)
    ensures LineRows(line, decode).None? <==> decode(PayloadText(line)).None?
    ensures LineRows(line, decode).Some? ==>
      var stops := decode(PayloadText(line)).value;
      var rows := LineRows(line, decode).value;
      && |rows| == |stops|
      && forall j :: 0 <= j < |rows| ==>
        var stop := FromPairs(stops[j]);
        && rows[j].items == stop.items + LineKeys(line).items
        && rows[j].keys == stop.keys + Missing(LineKeys(line).keys, stop.items.Keys)
  {
  }

  // ----------------------------------------------------------- whole file

  /** The parts joined in order, or `None` as soon as one part is missing:
      the exception of one line ends the whole parse. */
  function JoinParts<T>(parts: seq<Option<seq<T>>>): Option<seq<T>> {
    if parts == [] then Some([])
    else
      match JoinParts(parts[..|parts| - 1])
      case None => None
      case Some(xs) =>
        match parts[|parts| - 1]
        case None => None
        case Some(ys) => Some(xs + ys)
  }

  /** The parts of a join that succeeds. */
  function Values<T>(parts: seq<Option<seq<T>>>): (vs: seq<seq<T>>)
    requires forall i :: 0 <= i < |parts| ==> parts[i].Some?
    ensures |vs| == |parts| && forall i :: 0 <= i < |parts| ==> vs[i] == parts[i].value
  {
    seq(|parts|, i requires 0 <= i < |parts| && parts[i].Some? => parts[i].value)
  }

  lemma {:induction false} JoinPartsFailure<T>(parts: seq<Option<seq<T>>>)
    ensures JoinParts(parts).None? <==> exists i :: 0 <= i < |parts| && parts[i].None?
  {
    if parts != [] {
      var init := parts[..|parts| - 1];
      JoinPartsFailure(init);
      if JoinParts(init).None? {
        var i :| 0 <= i < |init| && init[i].None?;
        assert parts[i] == init[i];
      } else if parts[|parts| - 1].Some? {
        forall i | 0 <= i < |parts| ensures parts[i].Some? {
          if i < |init| {
            assert parts[i] == init[i];
          }
        }
      }
    }
  }

  lemma {:induction false} JoinPartsFlatten<T>(parts: seq<Option<seq<T>>>)
    requires forall i :: 0 <= i < |parts| ==> parts[i].Some?
    ensures JoinParts(parts) == Some(Flatten(Values(parts)))
  {
    if parts != [] {
      var init := parts[..|parts| - 1];
      var last := parts[|parts| - 1].value;
      JoinPartsFlatten(init);
      assert Values(parts) == Values(init) + [last];
      FlattenAppend(Values(init), [last]);
      assert Flatten([last]) == last by {
        assert [last][1..] == [];
      }
    }
  }

  /** Rows that are all well-formed dictionaries stay so when joined. */
  lemma {:induction false} JoinPartsValid(parts: seq<Option<seq<Row>>>)
    requires forall i, k :: 0 <= i < |parts| && parts[i].Some? && 0 <= k < |parts[i].value| ==>
      Valid(parts[i].value[k])
    ensures JoinParts(parts).Some? ==>
      forall j :: 0 <= j < |JoinParts(parts).value| ==> Valid(JoinParts(parts).value[j])
  {
    if parts != [] {
      var init := parts[..|parts| - 1];
      assert forall i :: 0 <= i < |init| ==> init[i] == parts[i];
      JoinPartsValid(init);
    }
  }

  /** What each line of the file yields. */
  function LineParts(lines: seq<string>, decode: Decoder): seq<Option<seq<Row>>> {
    seq(|lines|, i requires 0 <= i < |lines| => LineRows(lines[i], decode))
  }

  lemma LinePartsAt(lines: seq<string>, decode: Decoder)
    ensures |LineParts(lines, decode)| == |lines|
    ensures forall i :: 0 <= i < |lines| ==> LineParts(lines, decode)[i] == LineRows(lines[i], decode)
  {
  }

  /** All rows of a file, line after line; `None` as soon as a line fails. */
  function TripRows(lines: seq<string>, decode: Decoder): (r: Option<seq<Row>>)
    ensures r.Some? ==> forall j :: 0 <= j < |r.value| ==> Valid(r.value[j])
  {
    var parts := LineParts(lines, decode);
    JoinPartsValid(parts);
    JoinParts(parts)
  }

  /** Every line's rows, while all lines decode. */
  function AllLineRows(lines: seq<string>, decode: Decoder): seq<seq<Row>>
    requires forall i :: 0 <= i < |lines| ==> LineRows(lines[i], decode).Some?
  {
    seq(|lines|, i requires 0 <= i < |lines| && LineRows(lines[i], decode).Some? =>
      LineRows(lines[i], decode).value)
  }

  /** Parsing the file fails exactly when some line's stop list does not
      decode. */
  lemma TripRowsFailure(lines: seq<string>, decode: Decoder)
    ensures TripRows(lines, decode).None? <==>
      exists i :: 0 <= i < |lines| && LineRows(lines[i], decode).None?
  {
    LinePartsAt(lines, decode);
    JoinPartsFailure(LineParts(lines, decode));
  }

  /** When every line decodes, the file's rows are the lines' rows
      concatenated in file order, one per stop. */
  lemma TripRowsAreLineRows(lines: seq<string>, decode: Decoder)
    requires forall i :: 0 <= i < |lines| ==> LineRows(lines[i], decode).Some?
    ensures TripRows(lines, decode) == Some(Flatten(AllLineRows(lines, decode)))
  {
    var parts := LineParts(lines, decode);
    LinePartsAt(lines, decode);
    JoinPartsFlatten(parts);
    assert Values(parts) == AllLineRows(lines, decode);
  }

  /** The inner loop: `ret.append({**stop, **key_dict})` for every stop. */
  method AppendStops(ret: seq<Row>, stops: seq<seq<(string, string)>>, keyDict: Row)
    returns (out: seq<Row>)
    requires Valid(keyDict)
    ensures |out| == |ret| + |stops|
    ensures out[..|ret|] == ret
    ensures forall j :: 0 <= j < |stops| ==> out[|ret| + j] == Overlay(stops[j], keyDict)
  {
    out := ret;
    for j := 0 to |stops|
      invariant |out| == |ret| + j && out[..|ret|] == ret
      invariant forall i :: 0 <= i < j ==> out[|ret| + i] == Overlay(stops[i], keyDict)
    {
      out := out + [Overlay(stops[j], keyDict)];
    }
  }

  /** One more line extends the parse by that line's result. */
  lemma TripRowsSnoc(lines: seq<string>, n: nat, decode: Decoder)
    requires n < |lines|
    ensures var parts := LineParts(lines[..n], decode);
      TripRows(lines[..n + 1], decode) == JoinParts(parts + [LineRows(lines[n], decode)])
  {
    var parts := LineParts(lines[..n], decode);
    LinePartsAt(lines[..n], decode);
    LinePartsAt(lines[..n + 1], decode);
    assert LineParts(lines[..n + 1], decode) == parts + [LineRows(lines[n], decode)];
  }

  /** The rows so far followed by one row per stop of the next line are the
      rows of one more line. */
  lemma CollectStep(lines: seq<string>, n: nat, decode: Decoder, rows: seq<Row>, more: seq<Row>)
    requires n < |lines| && TripRows(lines[..n], decode) == Some(rows)
    requires decode(PayloadText(lines[n])).Some?
    requires var stops := decode(PayloadText(lines[n])).value;
      && |more| == |rows| + |stops| && more[..|rows|] == rows
      && forall j :: 0 <= j < |stops| ==> more[|rows| + j] == Overlay(stops[j], LineKeys(lines[n]))
    ensures TripRows(lines[..n + 1], decode) == Some(more)
  {
    LineRowsOverlay(lines[n], decode);
    assert more == rows + LineRows(lines[n], decode).value;
    TripRowsSnoc(lines, n, decode);
    assert (LineParts(lines[..n], decode) + [LineRows(lines[n], decode)])[..n] == LineParts(lines[..n], decode);
  }

  /** The loop over the lines of the file and over the stops of each line
      (the file itself is given as its lines). */
  method CollectRows(lines: seq<string>, decode: Decoder) returns (ret: Option<seq<Row>>)
    ensures ret == TripRows(lines, decode)
  {
    var rows: seq<Row> := [];
    for n := 0 to |lines|
      invariant TripRows(lines[..n], decode) == Some(rows)
    {
      var line := lines[n];
      var keyDict := LineKeys(line);
      var stops := decode(PayloadText(line));
      if stops.None? {
        assert LineRows(lines[n], decode).None?;
        TripRowsFailure(lines, decode);
        return None;
      }
      var more := AppendStops(rows, stops.value, keyDict);
      CollectStep(lines, n, decode, rows, more);
      rows := more;
    }
    assert lines[..|lines|] == lines;
    return Some(rows);
  }

  // ------------------------------------------------------ digit cleanup

  predicate IsDigit(c: char) {
    '0' <= c <= '9'
  }

  predicate AllDigits(s: string) {
    forall i :: 0 <= i < |s| ==> IsDigit(s[i])
  }

  /** `re.sub(r'\D', '', x)`: the decimal digits of `x`, in order. */
  function Digits(s: string): (r: string)
    ensures AllDigits(r)
    ensures |r| <= |s|
  {
    if s == [] then []
    else Digits(s[..|s| - 1]) + (if IsDigit(s[|s| - 1]) then [s[|s| - 1]] else [])
  }

  /** Every digit of the text is kept, as often as it occurs, and every other
      character is removed. */
  lemma {:induction false} DigitsCount(s: string)
    ensures forall c :: multiset(Digits(s))[c] == if IsDigit(c) then multiset(s)[c] else 0
  {
    if s != [] {
      DigitsCount(s[..|s| - 1]);
      assert s == s[..|s| - 1] + [s[|s| - 1]];
    }
  }

  /** Removing non-digits piecewise is removing them from the whole; with the
      count of each character in `DigitsCount`, this fixes the result: the digits of
      the text, in their original order. */
  lemma {:induction false} DigitsAppend(a: string, b: string)
    ensures Digits(a + b) == Digits(a) + Digits(b)
  {
    if b != [] {
      assert (a + b)[..|a + b| - 1] == a + b[..|b| - 1];
      DigitsAppend(a, b[..|b| - 1]);
    } else {
      assert a + b == a;
    }
  }

  /** A string of digits only is left as it is, and cleaning twice is
      cleaning once. */
  lemma {:induction false} DigitsKeepsDigitStrings(s: string)
    ensures AllDigits(s) <==> Digits(s) == s
  {
    if s != [] && AllDigits(s) {
      var init := s[..|s| - 1];
      assert AllDigits(init) by {
        assert forall i :: 0 <= i < |init| ==> init[i] == s[i];
      }
      DigitsKeepsDigitStrings(init);
      assert s == init + [s[|s| - 1]];
    }
  }

  lemma DigitsIdempotent(s: string)
    ensures Digits(Digits(s)) == Digits(s)
  {
    DigitsKeepsDigitStrings(Digits(s));
  }

  /** `['start_time', 'time', 'vehicle_id']` */
  const NumericColumns: seq<string> := ["start_time", "time", "vehicle_id"]

  /** The row with each of the columns `cols` replaced by its digits. */
  function CleanRow(row: Row, cols: seq<string>): (r: Row)
    requires Valid(row) && forall c :: c in cols ==> c in row.items
    ensures Valid(r) && r.keys == row.keys && r.items.Keys == row.items.Keys
  {
    if cols == [] then row
    else
      var c := cols[|cols| - 1];
      var prev := CleanRow(row, cols[..|cols| - 1]);
      Put(prev, c, Digits(prev.items[c]))
  }

  /** With distinct columns, each named column holds the digits of its old
      text and every other field is unchanged. */
  lemma {:induction false} CleanRowFields(row: Row, cols: seq<string>, k: string)
    requires Valid(row) && forall c :: c in cols ==> c in row.items
    requires Distinct(cols)
    ensures k in row.items ==>
      CleanRow(row, cols).items[k] == if k in cols then Digits(row.items[k]) else row.items[k]
  {
    if cols != [] {
      var init := cols[..|cols| - 1];
      assert forall c :: c in init ==> c in cols;
      assert Distinct(init);
      CleanRowFields(row, init, k);
      assert cols == init + [cols[|cols| - 1]];
      if k == cols[|cols| - 1] {
        assert k !in init;
      }
    }
  }

  /** One more column cleaned is one more `Put`. */
  lemma CleanRowSnoc(row: Row, cols: seq<string>, n: nat)
    requires n < |cols| && Valid(row) && forall c :: c in cols[..n + 1] ==> c in row.items
    ensures forall c :: c in cols[..n] ==> c in row.items
    ensures var prev := CleanRow(row, cols[..n]);
      CleanRow(row, cols[..n + 1]) == Put(prev, cols[n], Digits(prev.items[cols[n]]))
  {
    assert forall c :: c in cols[..n] ==> c in cols[..n + 1];
    assert cols[..n + 1][..n] == cols[..n];
  }

  /** Every row has the field `col`. */
  predicate AllHave(rows: seq<Row>, col: string) {
    forall j :: 0 <= j < |rows| ==> col in rows[j].items
  }

  /** `df[col].apply(lambda x: re.sub(r'\D', '', x))` on rows that all have
      the column. */
  function CleanColumn(rows: seq<Row>, col: string): (r: seq<Row>)
    requires forall j :: 0 <= j < |rows| ==> Valid(rows[j])
    requires AllHave(rows, col)
    ensures |r| == |rows|
    ensures forall j :: 0 <= j < |rows| ==> Valid(r[j]) && r[j].items.Keys == rows[j].items.Keys
  {
    seq(|rows|, j requires 0 <= j < |rows| && Valid(rows[j]) && col in rows[j].items =>
      Put(rows[j], col, Digits(rows[j].items[col])))
  }

  /** Every row has every numeric column. */
  predicate HasColumns(rows: seq<Row>) {
    forall j, c :: 0 <= j < |rows| && c in NumericColumns ==> c in rows[j].items
  }

  /** The column loop of `load_trips_df` on the parsed rows: `None` when the
      table has no rows (no columns at all) or some row lacks a numeric column
      (the cleanup is applied to a missing value). */
  function CleanAll(rows: seq<Row>): Option<seq<Row>>
    requires forall j :: 0 <= j < |rows| ==> Valid(rows[j])
  {
    if rows == [] || !HasColumns(rows) then None
    else Some(seq(|rows|, j requires 0 <= j < |rows| => CleanRow(rows[j], NumericColumns)))
  }

  /** The cleanup succeeds exactly on a non-empty table whose rows all have
      the three columns; then every row keeps its fields in their order, the
      three columns hold only their digits and every other field is as it was. */
  lemma CleanAllSpec(rows: seq<Row>)
    requires forall j :: 0 <= j < |rows| ==> Valid(rows[j])
    ensures CleanAll(rows).Some? <==> rows != [] && HasColumns(rows)
    ensures CleanAll(rows).Some? ==> |CleanAll(rows).value| == |rows| && forall j :: 0 <= j < |rows| ==>
      CleanAll(rows).value[j].keys == rows[j].keys &&
      forall k :: k in rows[j].items ==> (k in CleanAll(rows).value[j].items && CleanAll(rows).value[j].items[k] ==
        if k in NumericColumns then Digits(rows[j].items[k]) else rows[j].items[k])
  {
    if CleanAll(rows).Some? {
      forall j, k | 0 <= j < |rows| && k in rows[j].items
        ensures CleanAll(rows).value[j].items[k] ==
          if k in NumericColumns then Digits(rows[j].items[k]) else rows[j].items[k]
      {
        CleanRowFields(rows[j], NumericColumns, k);
      }
    }
  }

  /** Every row has the first `c` numeric columns. */
  predicate HasFirstColumns(rows: seq<Row>, c: nat)
    requires c <= |NumericColumns|
  {
    forall j, c' :: 0 <= j < |rows| && c' in NumericColumns[..c] ==> c' in rows[j].items
  }

  /** The column loop after its first `c` rounds: each row with the first `c`
      numeric columns cleaned, or `None` once a round has met a frame without
      that column. */
  function CleanRounds(rows: seq<Row>, c: nat): Option<seq<Row>>
    requires c <= |NumericColumns|
    requires forall j :: 0 <= j < |rows| ==> Valid(rows[j])
  {
    if c > 0 && (rows == [] || !HasFirstColumns(rows, c)) then None
    else Some(seq(|rows|, j requires 0 <= j < |rows| => CleanRow(rows[j], NumericColumns[..c])))
  }

  /** A column every row has extends the columns all rows have. */
  lemma HasFirstColumnsStep(rows: seq<Row>, c: nat)
    requires c < |NumericColumns| && HasFirstColumns(rows, c)
    requires AllHave(rows, NumericColumns[c])
    ensures HasFirstColumns(rows, c + 1)
  {
    var col := NumericColumns[c];
    assert NumericColumns[..c + 1] == NumericColumns[..c] + [col];
    forall j, c' | 0 <= j < |rows| && c' in NumericColumns[..c + 1] ensures c' in rows[j].items {
      if c' != col {
        assert c' in NumericColumns[..c];
      }
    }
  }

  /** A round over rows that all have the column cleans it. */
  lemma CleanRoundsStep(rows: seq<Row>, c: nat, out: seq<Row>)
    requires c < |NumericColumns|
    requires forall j :: 0 <= j < |rows| ==> Valid(rows[j])
    requires CleanRounds(rows, c) == Some(out) && out != []
    requires AllHave(out, NumericColumns[c])
    ensures forall j :: 0 <= j < |out| ==> Valid(out[j])
    ensures CleanRounds(rows, c + 1) == Some(CleanColumn(out, NumericColumns[c]))
  {
    var col := NumericColumns[c];
    assert AllHave(rows, col) by {
      assert forall j :: 0 <= j < |rows| ==> out[j] == CleanRow(rows[j], NumericColumns[..c]);
    }
    HasFirstColumnsStep(rows, c);
    forall j | 0 <= j < |rows|
      ensures CleanColumn(out, col)[j] == CleanRow(rows[j], NumericColumns[..c + 1])
    {
      CleanRowSnoc(rows[j], NumericColumns, c);
    }
    assert CleanColumn(out, col) ==
      seq(|rows|, j requires 0 <= j < |rows| => CleanRow(rows[j], NumericColumns[..c + 1]));
  }

  /** A round over no rows, or over a row without the column, fails the loop. */
  lemma CleanRoundFails(rows: seq<Row>, c: nat, out: seq<Row>)
    requires c < |NumericColumns|
    requires forall j :: 0 <= j < |rows| ==> Valid(rows[j])
    requires CleanRounds(rows, c) == Some(out)
    requires out == [] || !AllHave(out, NumericColumns[c])
    ensures CleanRounds(rows, |NumericColumns|).None?
  {
    if out != [] {
      var j :| 0 <= j < |out| && NumericColumns[c] !in out[j].items;
      assert NumericColumns[c] in NumericColumns[..|NumericColumns|];
    }
  }

  /** The whole loop computes `CleanAll`. */
  lemma CleanRoundsAll(rows: seq<Row>)
    requires forall j :: 0 <= j < |rows| ==> Valid(rows[j])
    ensures CleanRounds(rows, |NumericColumns|) == CleanAll(rows)
  {
    assert NumericColumns[..|NumericColumns|] == NumericColumns;
  }

  /** `for col in ['start_time', 'time', 'vehicle_id']: df[col] = ...` */
  method CleanColumns(rows: seq<Row>) returns (r: Option<seq<Row>>)
    requires forall j :: 0 <= j < |rows| ==> Valid(rows[j])
    ensures r == CleanAll(rows)
  {
    CleanRoundsAll(rows);
    var out := rows;
    assert CleanRounds(rows, 0) == Some(out) by {
      assert NumericColumns[..0] == [];
      assert seq(|rows|, j requires 0 <= j < |rows| => CleanRow(rows[j], NumericColumns[..0])) == rows;
    }
    for c := 0 to |NumericColumns|
      invariant CleanRounds(rows, c) == Some(out)
    {
      var col := NumericColumns[c];
      if out == [] || !AllHave(out, col) {
        CleanRoundFails(rows, c, out);
        return None;
      }
      CleanRoundsStep(rows, c, out);
      out := CleanColumn(out, col);
    }
    return Some(out);
  }

  /** `load_trips_df(filename)`, given the file's lines: the parsed rows with
      their numeric columns cleaned; `None` when a line does not decode or the
      cleanup fails. */
  method LoadTripsDf(lines: seq<string>, decode: Decoder) returns (df: Option<seq<Row>>)
    ensures TripRows(lines, decode).None? ==> df.None?
    ensures TripRows(lines, decode).Some? ==> df == CleanAll(TripRows(lines, decode).value)
  {
    var ret := CollectRows(lines, decode);
    if ret.None? {
      return None;
    }
    df := CleanColumns(ret.value);
  }
}
