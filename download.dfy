/** The pure parts of `download_data` (stocks.py:27-69): the ticker is
    upper-cased, the response is checked for the "data"/"tradesTable"
    fields, and every row's "close" string is cleaned of '$' and ','
    before it is converted to a number.  The HTTP exchange is abstracted
    as a `Response` value and `float(...)` as a possibly failing `parse`. */
module Download {
  import opened Wrappers

  // ---------------------------------------------------------------------
  // Ticker normalisation: `ticker.upper()` (stocks.py:39)
  // ---------------------------------------------------------------------

  predicate IsLowerAscii(c: char) { 'a' <= c <= 'z' }

  /** Upper-cases an ASCII lower-case letter and leaves every other character alone. */
  function UpperChar(c: char): char {
    if IsLowerAscii(c) then (c as int - 32) as char else c
  }

  /** `str.upper()` over ASCII: same length, no lower-case letter left, and
      the only characters that change are lower-case letters, each to its
      capital. */
  function Upper(s: string): (r: string)
    ensures |r| == |s|
    ensures forall i :: 0 <= i < |r| ==> !IsLowerAscii(r[i])
    ensures forall i :: 0 <= i < |s| && !IsLowerAscii(s[i]) ==> r[i] == s[i]
    ensures forall i :: 0 <= i < |s| && IsLowerAscii(s[i]) ==> r[i] as int == s[i] as int - 32
  {
    if |s| == 0 then "" else [UpperChar(s[0])] + Upper(s[1..])
  }

  /** Upper-casing twice is upper-casing once. */
  lemma UpperIdempotent(s: string)
    ensures Upper(Upper(s)) == Upper(s)
  {
    var u := Upper(s);
    var uu := Upper(u);
    assert forall i :: 0 <= i < |u| ==> uu[i] == u[i];
  }

  /** Example: "aapl" becomes "AAPL" and "Brk.b" becomes "BRK.B". */
  lemma UpperExample()
    ensures Upper("aapl") == "AAPL"
    ensures Upper("Brk.b") == "BRK.B"
  {
  }

  // ---------------------------------------------------------------------
  // Close-price cleaning: `.replace("$", "").replace(",", "")` (stocks.py:59)
  // ---------------------------------------------------------------------

  /** `s.replace(c, "")` for a single character `c`: every occurrence of `c`
      is deleted and nothing else. */
  function RemoveChar(s: string, c: char): (r: string)
    ensures c !in r
    ensures |r| <= |s|
    ensures forall d :: d != c ==> multiset(r)[d] == multiset(s)[d]
  {
    if |s| == 0 then ""
    else
      assert s == [s[0]] + s[1..];
      if s[0] == c then RemoveChar(s[1..], c) else [s[0]] + RemoveChar(s[1..], c)
  }

  /** Deleting a character distributes over concatenation, so the kept
      characters keep their order. */
  lemma {:induction false} RemoveCharConcat(a: string, b: string, c: char)
    ensures RemoveChar(a + b, c) == RemoveChar(a, c) + RemoveChar(b, c)
  {
    if |a| == 0 {
      assert a + b == b;
    } else {
      assert (a + b)[0] == a[0] && (a + b)[1..] == a[1..] + b;
      RemoveCharConcat(a[1..], b, c);
    }
  }

  /** The cleaning of one "close" string. */
  function Clean(close: string): (r: string)
    ensures '$' !in r && ',' !in r
    ensures |r| <= |close|
  {
    var s := RemoveChar(close, '$');
    assert '$' !in s;
    var r := RemoveChar(s, ',');
    assert multiset(r)['$'] == multiset(s)['$'] == 0;
    r
  }

  predicate IsStripped(c: char) { c == '$' || c == ',' }

  /** The cleaned string holds neither '$' nor ','; every other character
      occurs in it exactly as often as in the input. */
  lemma CleanContents(close: string)
    ensures forall i :: 0 <= i < |Clean(close)| ==> !IsStripped(Clean(close)[i])
    ensures forall d :: !IsStripped(d) ==> multiset(Clean(close))[d] == multiset(close)[d]
  {
    var r := Clean(close);
    assert '$' !in RemoveChar(close, '$');
    assert forall i :: 0 <= i < |r| ==> r[i] in multiset(RemoveChar(close, '$'));
  }

  /** Cleaning is a character filter: it distributes over concatenation and
      on a single character deletes '$' and ',' and keeps anything else.
      Together these fix the result: the input with exactly those
      characters deleted and the rest kept in order. */
  lemma CleanIsFilter(a: string, b: string, c: char)
    ensures Clean(a + b) == Clean(a) + Clean(b)
    ensures Clean([c]) == if IsStripped(c) then "" else [c]
  {
    RemoveCharConcat(a, b, '$');
    RemoveCharConcat(RemoveChar(a, '$'), RemoveChar(b, '$'), ',');
    assert [c][1..] == "";
  }

  /** Deleting a character that does not occur changes nothing. */
  lemma {:induction false} RemoveCharAbsent(s: string, c: char)
    requires c !in s
    ensures RemoveChar(s, c) == s
  {
    if |s| > 0 {
      assert c !in s[1..];
      RemoveCharAbsent(s[1..], c);
      assert s == [s[0]] + s[1..];
    }
  }

  /** Close strings without the characters the cleaning strips. */
  predicate Plain(close: string) {
    '$' !in close && ',' !in close
  }

  /** A string holding neither '$' nor ',' is left as it is. */
  lemma CleanKeepsPlain(close: string)
    requires Plain(close)
    ensures Clean(close) == close
  {
    RemoveCharAbsent(close, '$');
    RemoveCharAbsent(close, ',');
  }

  /** Cleaning an already cleaned string changes nothing. */
  lemma CleanIdempotent(close: string)
    ensures Clean(Clean(close)) == Clean(close)
  {
    CleanContents(close);
    var r := Clean(close);
    assert forall i :: 0 <= i < |r| ==> r[i] != '$' && r[i] != ',';
    CleanKeepsPlain(r);
  }

  /** Example: the close "$1,234.56" is cleaned to "1234.56".  The close is
      a parameter pinned by `requires` rather than a literal in the
      `ensures`: a string literal given directly to the recursive `Clean`
      is unfolded character by character, which makes the proof far more
      expensive than reasoning about its pieces. */
  lemma CleanExample(close: string)
    requires close == "$1,234.56"
    ensures Clean(close) == "1234.56"
  {
    var dollar, one, comma, digits := "$", "1", ",", "234.56";
    assert Clean(dollar + one) == one by {
      CleanIsFilter(dollar, one, '$');
      CleanIsFilter("", "", '1');
    }
    assert Clean(dollar + one + comma) == one by {
      CleanIsFilter(dollar + one, comma, ',');
    }
    assert Clean(dollar + one + comma + digits) == one + digits by {
      CleanIsFilter(dollar + one + comma, digits, '1');
      CleanKeepsPlain(digits);
    }
    assert dollar + one + comma + digits == close;
  }

  // ---------------------------------------------------------------------
  // Response shape and row parsing (stocks.py:51-69)
  // ---------------------------------------------------------------------

  /** A member of a decoded JSON object as Python sees it: absent (`in` is
      false), present with the value `null` (Python's `None`), or present. */
  datatype Field<+T> = Missing | Null | Present(value: T)

  /** One daily row of the trades table; only its "close" member is read. */
  datatype Row = Row(close: Field<string>)

  /** The "tradesTable" object; only its "rows" member is read. */
  datatype TradesTable = TradesTable(rows: Field<seq<Row>>)

  /** The "data" object; only its "tradesTable" member is read. */
  datatype DataObject = DataObject(tradesTable: Field<TradesTable>)

  /** What the HTTP exchange produced: a request exception (connection
      failure, a 4xx/5xx status, a body that is not JSON), or a decoded
      JSON object whose "data" member is the only one read. */
  datatype Response = RequestFailed | Received(data: Field<DataObject>)

  /** The Python exceptions the row comprehension can raise and nothing catches. */
  datatype Raised = KeyError | TypeError | AttributeError | ValueError

  /** What `download_data` does: returns a dictionary with the upper-cased
      ticker and the prices; returns `None` after a request exception or
      when the expected fields are absent; or raises. */
  datatype Fetched =
    | Prices(ticker: string, prices: seq<real>)
    | FetchFailed
    | NoData
    | Exception(error: Raised)

  /** The converted price of one row: a missing "close" key is a KeyError, a
      `null` close has no `replace` (AttributeError), and a cleaned string that
      `float` rejects is a ValueError. */
  function ClosePrice(row: Row, parse: string -> Option<real>): (r: Result<real, Raised>)
    ensures r == Err(KeyError) <==> row.close.Missing?
    ensures r == Err(AttributeError) <==> row.close.Null?
    ensures r == Err(ValueError) <==> row.close.Present? && parse(Clean(row.close.value)).None?
    ensures r.Ok? <==> row.close.Present? && parse(Clean(row.close.value)).Some?
    ensures r.Ok? ==> Some(r.value) == parse(Clean(row.close.value))
  {
    match row.close
    case Missing => Err(KeyError)
    case Null => Err(AttributeError)
    case Present(close) =>
      match parse(Clean(close))
      case None => Err(ValueError)
      case Some(price) => Ok(price)
  }

  /** A row whose close is "$" followed by a plain number converts to what `float` makes of that number. */
  lemma DollarClosePrice(digits: string, parse: string -> Option<real>, price: real)
    requires Plain(digits)
    requires parse(digits) == Some(price)
    ensures ClosePrice(Row(Present("$" + digits)), parse) == Ok(price)
  {
    CleanIsFilter("$", digits, '$');
    CleanKeepsPlain(digits);
  }

  /** The list comprehension over the rows, evaluated left to right: it
      succeeds exactly when every row converts, and then holds one price
      per row in row order; otherwise it raises the error of the first row
      that does not convert. */
  function ParseRows(rows: seq<Row>, parse: string -> Option<real>): (r: Result<seq<real>, Raised>)
    ensures r.Ok? <==> forall i :: 0 <= i < |rows| ==> ClosePrice(rows[i], parse).Ok?
    ensures r.Ok? ==> |r.value| == |rows|
    ensures r.Ok? ==> forall i :: 0 <= i < |rows| ==> r.value[i] == ClosePrice(rows[i], parse).value
    ensures r.Err? ==> exists k :: 0 <= k < |rows| && ClosePrice(rows[k], parse) == Err(r.error)
                                   && forall j :: 0 <= j < k ==> ClosePrice(rows[j], parse).Ok?
  {
    if |rows| == 0 then Ok([])
    else
      match ClosePrice(rows[0], parse)
      case Err(e) => Err(e)
      case Ok(price) =>
        var rest := ParseRows(rows[1..], parse);
        match rest
        case Err(e) =>
          var k :| 0 <= k < |rows| - 1 && ClosePrice(rows[1..][k], parse) == Err(e)
                   && forall j :: 0 <= j < k ==> ClosePrice(rows[1..][j], parse).Ok?;
          assert ClosePrice(rows[k + 1], parse) == Err(e);
          Err(e)
        case Ok(tail) => Ok([price] + tail)
  }

  /** Conversely, rows that each convert to the given price parse to exactly that list. */
  lemma ParseRowsOk(rows: seq<Row>, parse: string -> Option<real>, prices: seq<real>)
    requires |rows| == |prices|
    requires forall i :: 0 <= i < |rows| ==> ClosePrice(rows[i], parse) == Ok(prices[i])
    ensures ParseRows(rows, parse) == Ok(prices)
  {
    var r := ParseRows(rows, parse);
    assert r.Ok?;
    assert r.value == prices;
  }

  /** The presence test of stocks.py:57, for a response that decoded. */
  predicate HasTradesTable(data: Field<DataObject>) {
    data.Present? && !data.value.tradesTable.Missing?
  }

  /** `download_data(ticker)` given the response the request produced. */
  function DownloadData(ticker: string, response: Response, parse: string -> Option<real>): (r: Fetched)
    ensures r == FetchFailed <==> response.RequestFailed?
    ensures r == NoData <==> response.Received? && !response.data.Null? && !HasTradesTable(response.data)
    ensures r.Prices? ==> r.ticker == Upper(ticker)
    ensures r.Prices? <==> response.Received? && HasTradesTable(response.data)
                            && response.data.value.tradesTable.Present?
                            && response.data.value.tradesTable.value.rows.Present?
                            && ParseRows(response.data.value.tradesTable.value.rows.value, parse).Ok?
    ensures r.Prices? ==> r.prices == ParseRows(response.data.value.tradesTable.value.rows.value, parse).value
    ensures response.Received? && HasTradesTable(response.data)
            && response.data.value.tradesTable.Present?
            && response.data.value.tradesTable.value.rows.Present?
            && ParseRows(response.data.value.tradesTable.value.rows.value, parse).Err?
            ==> r == Exception(ParseRows(response.data.value.tradesTable.value.rows.value, parse).error)
    ensures response.Received? && response.data.Null? ==> r == Exception(TypeError)
    ensures response.Received? && HasTradesTable(response.data) && response.data.value.tradesTable.Null?
            ==> r == Exception(TypeError)
    ensures response.Received? && HasTradesTable(response.data) && response.data.value.tradesTable.Present?
            && !response.data.value.tradesTable.value.rows.Present?
            ==> r == Exception(if response.data.value.tradesTable.value.rows.Missing? then KeyError else TypeError)
  {
    match response
    case RequestFailed => FetchFailed
    case Received(data) =>
      match data
      case Missing => NoData
      case Null => Exception(TypeError)           // `"tradesTable" in None`
      case Present(obj) =>
        match obj.tradesTable
        case Missing => NoData
        case Null => Exception(TypeError)         // `None["rows"]`
        case Present(table) =>
          match table.rows
          case Missing => Exception(KeyError)
          case Null => Exception(TypeError)       // iterating over `None`
          case Present(rows) =>
            match ParseRows(rows, parse)
            case Err(e) => Exception(e)
            case Ok(prices) => Prices(Upper(ticker), prices)
  }
}
