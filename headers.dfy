/**
 * Header resolution of the importer: each logical field of a CSV row is read
 * through a fixed, ordered list of header spellings, as a chain of
 * `row.get(h1) or row.get(h2) or …`.
 */
module Headers {
  import opened Wrappers

  /** A data row as `csv.DictReader` yields it: header to cell text. A header
      that is not a key stands for a missing column and for a short row alike. */
  type Row = map<string, string>

  const NameHeaders: seq<string> := ["Name", "\U{FEFF}Name", "name", "NAME"]
  const StrategyHeaders: seq<string> := ["Strategy", "strategy", "STRATEGY"]
  const AumHeaders: seq<string> := ["AUM (USD)", "aum", "AUM"]
  const DateHeaders: seq<string> := ["Inception Date", "inception_date", "Inception"]

  /** Python truthiness of `row.get(h)`: present and not the empty string. */
  predicate Present(row: Row, h: string) {
    h in row && row[h] != ""
  }

  /** The value of the first header in `headers` that is present, or `None` for
      the falsy value the chain ends with when none is. */
  function Resolve(headers: seq<string>, row: Row): (r: Option<string>)
    ensures r.Some? <==> exists i :: 0 <= i < |headers| && Present(row, headers[i])
    ensures r.Some? ==> r.value != ""
  {
    if headers == [] then None
    else if Present(row, headers[0]) then Some(row[headers[0]])
    else
      var r := Resolve(headers[1..], row);
      assert forall i :: 1 <= i < |headers| ==> headers[i] == headers[1..][i - 1];
      r
  }

  /** A present header preceded only by absent or empty ones supplies the value. */
  lemma {:induction false} ResolvePicksFirstPresent(headers: seq<string>, row: Row, i: nat)
    requires i < |headers| && Present(row, headers[i])
    requires forall j :: 0 <= j < i ==> !Present(row, headers[j])
    ensures Resolve(headers, row) == Some(row[headers[i]])
  {
    if i > 0 {
      var rest := headers[1..];
      assert !Present(row, headers[0]);
      forall j | 0 <= j < i - 1
        ensures !Present(row, rest[j])
      {
        assert rest[j] == headers[j + 1];
      }
      ResolvePicksFirstPresent(rest, row, i - 1);
    }
  }

  /** Headers outside the list do not matter: only the listed cells are read. */
  lemma {:induction false} ResolveReadsOnlyListed(headers: seq<string>, row: Row, other: Row)
    requires forall h :: h in headers ==> (h in row <==> h in other)
    requires forall h :: h in headers && h in row ==> row[h] == other[h]
    ensures Resolve(headers, row) == Resolve(headers, other)
  {
    if headers != [] {
      assert headers[0] in headers;
      ResolveReadsOnlyListed(headers[1..], row, other);
    }
  }

  /** A `Name` column that kept its byte-order mark is read when `Name` itself is
      missing or empty. */
  lemma MarkedNameHeaderRead(row: Row)
    requires !Present(row, "Name") && Present(row, "\U{FEFF}Name")
    ensures Resolve(NameHeaders, row) == Some(row["\U{FEFF}Name"])
  {
    ResolvePicksFirstPresent(NameHeaders, row, 1);
  }
}
