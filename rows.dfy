/** `extract_from_row` (scrape_yio.py:130-156): one row of a subject
    listing table becomes a record of the organisation's basic details. The
    row is given as the text of each of its cells and the `href` attributes
    of the links in its first cell; the HTML table itself is not modelled. */
module Rows {
  import opened Wrappers
  import opened Text
  import opened Dicts

  /** Why the source raises on a row. */
  datatype RowError =
    | MissingCell   // `org_raw[k]` past the end of the row: IndexError
    | MissingLink   // no `<a>` in the first cell: IndexError
    | MissingHref   // the first `<a>` has no `href`: KeyError
    | NoUrlId       // the URL does not end in `/<digits>`: `.group` on None

  /** The record's keys, in the order the source assigns them. */
  const RowKeys: seq<string> := [
    "org_name", "org_url", "org_url_id", "org_acronym_t", "org_founded_t",
    "org_city_hq_t", "org_country_hq_t", "org_type_i_t", "org_type_ii_t",
    "org_type_iii_t", "org_uia_id_t"]

  lemma RowKeysDistinct()
    ensures Distinct(RowKeys)
  {
  }

  /** The loop's rewrite of one value: a blank becomes `None`. */
  function Blanked(v: Option<string>): Option<string>
  {
    if v == Some("") then None else v
  }

  /** A blank cell is stored as `None`. */
  function NoneIfBlank(s: string): Option<string>
  {
    if s == "" then None else Some(s)
  }

  /** The value of each key of `RowKeys` before blanks become `None`: the
      cleaned text of the name cell, the cleaned URL, its id, and the cleaned
      text of cells 1 to 8. */
  function RowValues(cells: seq<string>, url: string, id: string): (v: seq<string>)
    requires |cells| >= 9
    ensures |v| == |RowKeys|
  {
    [CleanText(cells[0]), url, id] + seq(8, k requires 0 <= k < 8 => CleanText(cells[k + 1]))
  }

  /** Which error, if any, the source raises on a row, in the order it
      reaches them. */
  function RowFailure(cells: seq<string>, hrefs: seq<Option<string>>): Option<RowError>
  {
    if |cells| == 0 then Some(MissingCell)
    else if |hrefs| == 0 then Some(MissingLink)
    else if hrefs[0].None? then Some(MissingHref)
    else if UrlId(CleanText(hrefs[0].value)).None? then Some(NoUrlId)
    else if |cells| < 9 then Some(MissingCell)
    else None
  }

  /** The final loop of `extract_from_row` (scrape_yio.py:151-154): every
      value that is the empty string becomes `None`; the keys, their order
      and every other value stay as they were. */
  method ConvertBlanks(d: Dict<Option<string>>) returns (details: Dict<Option<string>>)
    requires d.Valid()
    ensures details.Valid() && details.keys == d.keys
    ensures forall k :: k in d.vals ==> k in details.vals && details.vals[k] == Blanked(d.vals[k])
  {
    details := d;
    var i := 0;
    while i < |details.keys|
      invariant 0 <= i <= |d.keys|
      invariant details.Valid() && details.keys == d.keys
      invariant forall j :: 0 <= j < i ==> details.vals[d.keys[j]] == Blanked(d.vals[d.keys[j]])
      invariant forall j :: i <= j < |d.keys| ==> details.vals[d.keys[j]] == d.vals[d.keys[j]]
    {
      var key := details.keys[i];
      if details.vals[key] == Some("") {
        details := details.Set(key, None);
      }
      i := i + 1;
    }
  }

  /** The assignments of scrape_yio.py:136-149 followed by the loop of
      lines 151-154: the record has the keys of `RowKeys` in that order, and
      each holds its value, or `None` where that value is blank. */
  method FillRecord(keys: seq<string>, values: seq<string>) returns (details: Dict<Option<string>>)
    requires Distinct(keys) && |values| == |keys|
    ensures details.Valid() && details.keys == keys
    ensures forall i :: 0 <= i < |keys| ==> details.vals[keys[i]] == NoneIfBlank(values[i])
    ensures forall k :: k in details.vals ==> details.vals[k] != Some("")
  {
    // `org_details[key] = value` for each key in turn, from an empty dict
    var filled := seq(|values|, k requires 0 <= k < |values| => Some(values[k]));
    details := SetAll(Empty(), keys, filled);
    SetAllFreshKeys(Empty(), keys, filled);
    SetAllValues(Empty(), keys, filled);
    details := ConvertBlanks(details);
  }

  /** The whole of `extract_from_row`: either the error the source raises,
      or the record, in which no value is left blank and the URL id, never
      blank, is stored as found. */
  method ExtractFromRow(cells: seq<string>, hrefs: seq<Option<string>>)
    returns (r: Result<Dict<Option<string>>, RowError>)
    ensures r.Failure? <==> RowFailure(cells, hrefs).Some?
    ensures r.Failure? ==> r.error == RowFailure(cells, hrefs).value
    ensures r.Success? ==>
              var url := CleanText(hrefs[0].value);
              var values := RowValues(cells, url, UrlId(url).value);
              && r.value.Valid()
              && r.value.keys == RowKeys
              && (forall i :: 0 <= i < |RowKeys| ==> r.value.vals[RowKeys[i]] == NoneIfBlank(values[i]))
    ensures r.Success? ==> forall k :: k in r.value.vals ==> r.value.vals[k] != Some("")
  {
    if |cells| == 0 {
      return Failure(MissingCell);
    }
    if |hrefs| == 0 {
      return Failure(MissingLink);
    }
    if hrefs[0].None? {
      return Failure(MissingHref);
    }
    var url := CleanText(hrefs[0].value);
    var id := UrlId(url);
    if id.None? {
      return Failure(NoUrlId);
    }
    if |cells| < 9 {
      return Failure(MissingCell);
    }
    RowKeysDistinct();
    var details := FillRecord(RowKeys, RowValues(cells, url, id.value));
    return Success(details);
  }
}
