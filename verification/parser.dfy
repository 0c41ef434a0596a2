/** The payload parser inside `GetPlayer`: a newline-separated body, one
    "xp,level,rank" row per catalog skill, read positionally into a map from
    skill name to statistics. */
module Parser {
  import opened Errors
  import Strings
  import Strconv

  /** One skill's statistics. */
  datatype Stats = Stats(xp: int, rank: int, level: int)

  /** Every field fits the 32-bit range `strconv.ParseInt(_, 10, 32)` yields. */
  predicate InRange32(st: Stats) {
    && Strconv.MinInt32 <= st.xp <= Strconv.MaxInt32
    && Strconv.MinInt32 <= st.rank <= Strconv.MaxInt32
    && Strconv.MinInt32 <= st.level <= Strconv.MaxInt32
  }

  /** A row has the expected shape when it splits on commas into exactly
      three fields. */
  predicate WellShaped(row: string) {
    |Strings.Split(row, ',')| == 3
  }

  /** One payload row. Fields are read in the order xp, level, rank; each is
      converted leniently (a malformed number reads as 0). */
  function ParseRow(row: string): (r: Result<Stats>)
    ensures r.Ok? <==> Strings.Count(row, ',') == 2
    ensures r.Err? ==> r.error == MalformedRow
    ensures r.Ok? ==> InRange32(r.value)
  {
    Strings.SplitLength(row, ',');
    var fields := Strings.Split(row, ',');
    if |fields| != 3 then Err(MalformedRow)
    else
      Ok(Stats(
        xp := Strconv.ParseInt32(fields[0]),
        rank := Strconv.ParseInt32(fields[2]),
        level := Strconv.ParseInt32(fields[1])))
  }

  /** The rows of the catalog's first |catalog| positions, read in order:
      the first row that is missing or misshapen ends the parse with an
      error; a later skill name overwrites an earlier equal one. Rows past
      the catalog are never looked at. */
  function ParseRows(rows: seq<string>, catalog: seq<string>): (r: Result<map<string, Stats>>)
    ensures r.Err? ==> r.error == MalformedRow || r.error == RowOutOfRange
    decreases |catalog|
  {
    if |catalog| == 0 then Ok(map[])
    else
      var n := |catalog| - 1;
      match ParseRows(rows, catalog[..n])
      case Err(e) => Err(e)
      case Ok(stats) =>
        if n >= |rows| then Err(RowOutOfRange)
        else
          match ParseRow(rows[n])
          case Err(e) => Err(e)
          case Ok(st) => Ok(stats[catalog[n] := st])
  }

  /** The parse succeeds exactly when every catalog position has a row of
      the right shape; otherwise the first offending position decides the
      error: a misshapen row among those present, or else a missing row. */
  lemma {:induction false} ParseRowsOutcome(rows: seq<string>, catalog: seq<string>)
    ensures ParseRows(rows, catalog).Ok? <==>
      |catalog| <= |rows| && forall i :: 0 <= i < |catalog| ==> WellShaped(rows[i])
    ensures ParseRows(rows, catalog) == Err(MalformedRow) <==>
      exists i :: 0 <= i < |catalog| && i < |rows| && !WellShaped(rows[i])
    ensures ParseRows(rows, catalog) == Err(RowOutOfRange) <==>
      |rows| < |catalog| && forall i :: 0 <= i < |rows| ==> WellShaped(rows[i])
    decreases |catalog|
  {
    if |catalog| > 0 {
      var n := |catalog| - 1;
      ParseRowsOutcome(rows, catalog[..n]);
      if n < |rows| {
        Strings.SplitLength(rows[n], ',');
      }
    }
  }

  /** A successful parse has exactly the catalog's names as keys. */
  lemma {:induction false} ParseRowsKeys(rows: seq<string>, catalog: seq<string>)
    ensures ParseRows(rows, catalog).Ok? ==> ParseRows(rows, catalog).value.Keys == set c | c in catalog
    decreases |catalog|
  {
    if |catalog| > 0 {
      var n := |catalog| - 1;
      assert catalog == catalog[..n] + [catalog[n]];
      ParseRowsKeys(rows, catalog[..n]);
    }
  }

  /** In a successful parse the name at catalog position i holds the
      statistics of row i (for the last position at which that name
      appears). */
  lemma {:induction false} ParseRowsValues(rows: seq<string>, catalog: seq<string>, i: nat)
    requires ParseRows(rows, catalog).Ok?
    requires i < |catalog| && catalog[i] !in catalog[i + 1..]
    ensures i < |rows| && catalog[i] in ParseRows(rows, catalog).value
    ensures ParseRow(rows[i]) == Ok(ParseRows(rows, catalog).value[catalog[i]])
    decreases |catalog|
  {
    var n := |catalog| - 1;
    ParseRowsKeys(rows, catalog);
    if i < n {
      assert catalog[..n][i] == catalog[i];
      assert catalog[n] in catalog[i + 1..];
      assert catalog[..n][i + 1..] == catalog[i + 1..n];
      ParseRowsValues(rows, catalog[..n], i);
    }
  }

  /** `GetPlayer`'s parse: split the body on newlines, then read the rows. */
  function ParsePayload(payload: string, catalog: seq<string>): (r: Result<map<string, Stats>>)
    ensures r.Ok? ==> r.value.Keys == set c | c in catalog
    ensures r.Err? ==> r.error == MalformedRow || r.error == RowOutOfRange
  {
    var rows := Strings.Split(payload, '\n');
    ParseRowsKeys(rows, catalog);
    ParseRows(rows, catalog)
  }

  /** A row as the leaderboard renders it: "xp,level,rank". */
  function FormatRow(st: Stats): string {
    Strconv.FormatInt(st.xp) + "," + Strconv.FormatInt(st.level) + "," + Strconv.FormatInt(st.rank)
  }

  /** A payload rendering `m`'s statistics in catalog order. */
  function FormatPayload(m: map<string, Stats>, catalog: seq<string>): string
    requires forall i :: 0 <= i < |catalog| ==> catalog[i] in m
  {
    Strings.Join(FormatRows(m, catalog), '\n')
  }

  function FormatRows(m: map<string, Stats>, catalog: seq<string>): (rows: seq<string>)
    requires forall i :: 0 <= i < |catalog| ==> catalog[i] in m
    ensures |rows| == |catalog|
    ensures forall i :: 0 <= i < |catalog| ==> rows[i] == FormatRow(m[catalog[i]])
  {
    seq(|catalog|, i requires 0 <= i < |catalog| => FormatRow(m[catalog[i]]))
  }

  /** Rendering a row and parsing it back gives the same statistics. */
  lemma ParseFormatRow(st: Stats)
    requires InRange32(st)
    ensures ParseRow(FormatRow(st)) == Ok(st)
  {
    var x, l, k := Strconv.FormatInt(st.xp), Strconv.FormatInt(st.level), Strconv.FormatInt(st.rank);
    Strconv.FormatIntChars(st.xp);
    Strconv.FormatIntChars(st.level);
    Strconv.FormatIntChars(st.rank);
    assert ',' !in x && ',' !in l && ',' !in k;
    assert [x, l, k][1..] == [l, k] && [l, k][1..] == [k];
    assert Strings.Join([k], ',') == k;
    assert Strings.Join([l, k], ',') == l + [','] + k;
    assert Strings.Join([x, l, k], ',') == x + [','] + (l + [','] + k);
    assert FormatRow(st) == Strings.Join([x, l, k], ',');
    Strings.SplitJoin([x, l, k], ',');
    Strconv.ParseFormatInt(st.xp);
    Strconv.ParseFormatInt(st.level);
    Strconv.ParseFormatInt(st.rank);
  }

  /** A rendered row holds no newline, so it stays one payload row. */
  lemma FormatRowNoNewline(st: Stats)
    ensures '\n' !in FormatRow(st)
  {
    Strconv.FormatIntChars(st.xp);
    Strconv.FormatIntChars(st.level);
    Strconv.FormatIntChars(st.rank);
  }

  /** Rows that each parse to the statistics `m` holds for their catalog
      position produce exactly `m` restricted to the catalog. */
  lemma {:induction false} ParseRowsOfRendered(rows: seq<string>, catalog: seq<string>, m: map<string, Stats>)
    requires |catalog| <= |rows|
    requires forall i :: 0 <= i < |catalog| ==> catalog[i] in m && ParseRow(rows[i]) == Ok(m[catalog[i]])
    ensures ParseRows(rows, catalog) == Ok(map k | k in catalog :: m[k])
    decreases |catalog|
  {
    if |catalog| > 0 {
      var n := |catalog| - 1;
      ParseRowsOfRendered(rows, catalog[..n], m);
      RenderedStep(rows, catalog, m);
    }
  }

  /** The inductive step of `ParseRowsOfRendered`: the restriction of `m` to
      the first n names, extended by row n, is the restriction to n + 1. */
  lemma RenderedStep(rows: seq<string>, catalog: seq<string>, m: map<string, Stats>)
    requires 0 < |catalog| <= |rows|
    requires forall i :: 0 <= i < |catalog| ==> catalog[i] in m
    requires ParseRow(rows[|catalog| - 1]) == Ok(m[catalog[|catalog| - 1]])
    requires ParseRows(rows, catalog[..|catalog| - 1]) == Ok(map k | k in catalog[..|catalog| - 1] :: m[k])
    ensures ParseRows(rows, catalog) == Ok(map k | k in catalog :: m[k])
  {
    var n := |catalog| - 1;
    ParseRowsStep(rows, catalog, map k | k in catalog[..n] :: m[k], m[catalog[n]]);
    RestrictLast(m, catalog);
  }

  /** One step of the row loop: a successful parse of the first n names
      followed by a good row n adds that row under name n. */
  lemma ParseRowsStep(rows: seq<string>, catalog: seq<string>, stats: map<string, Stats>, st: Stats)
    requires 0 < |catalog| <= |rows|
    requires ParseRows(rows, catalog[..|catalog| - 1]) == Ok(stats)
    requires ParseRow(rows[|catalog| - 1]) == Ok(st)
    ensures ParseRows(rows, catalog) == Ok(stats[catalog[|catalog| - 1] := st])
  {
  }

  /** Restricting `m` to a list of names is restricting it to all but the
      last name and then adding the last one. */
  lemma RestrictLast(m: map<string, Stats>, names: seq<string>)
    requires 0 < |names|
    requires forall i :: 0 <= i < |names| ==> names[i] in m
    ensures var n := |names| - 1;
      (map k | k in names[..n] :: m[k])[names[n] := m[names[n]]] == map k | k in names :: m[k]
  {
    var n := |names| - 1;
    assert names == names[..n] + [names[n]];
  }

  /** Parsing a rendered payload gives back the statistics it was rendered
      from, provided the map covers exactly the catalog and every number
      fits 32 bits. The empty catalog renders as the empty payload, which
      splits into one empty row that nothing reads. */
  lemma ParseFormatPayload(m: map<string, Stats>, catalog: seq<string>)
    requires m.Keys == set c | c in catalog
    requires forall k :: k in m ==> InRange32(m[k])
    ensures forall i :: 0 <= i < |catalog| ==> catalog[i] in m
    ensures ParsePayload(FormatPayload(m, catalog), catalog) == Ok(m)
  {
    assert forall i :: 0 <= i < |catalog| ==> catalog[i] in m;
    if |catalog| == 0 {
      assert m == map[];
      assert FormatPayload(m, catalog) == "";
      Strings.SplitWithoutSeparator("", '\n');
      return;
    }
    var rows := FormatRows(m, catalog);
    RenderedRows(m, catalog);
    Strings.SplitJoin(rows, '\n');
    assert Strings.Split(FormatPayload(m, catalog), '\n') == rows;
    ParseRowsOfRendered(rows, catalog, m);
    assert ParseRows(rows, catalog) == Ok(map k | k in catalog :: m[k]);
    RestrictToCatalog(m, catalog);
  }

  lemma RestrictToCatalog(m: map<string, Stats>, catalog: seq<string>)
    requires m.Keys == set c | c in catalog
    ensures (map k | k in catalog :: m[k]) == m
  {
  }

  lemma RenderedRows(m: map<string, Stats>, catalog: seq<string>)
    requires forall i :: 0 <= i < |catalog| ==> catalog[i] in m && InRange32(m[catalog[i]])
    ensures forall i :: 0 <= i < |catalog| ==>
      '\n' !in FormatRows(m, catalog)[i] && ParseRow(FormatRows(m, catalog)[i]) == Ok(m[catalog[i]])
  {
    var rows := FormatRows(m, catalog);
    forall i | 0 <= i < |rows|
      ensures '\n' !in rows[i] && ParseRow(rows[i]) == Ok(m[catalog[i]])
    {
      FormatRowNoNewline(m[catalog[i]]);
      ParseFormatRow(m[catalog[i]]);
    }
  }

  /** Only the first |catalog| rows matter: two row lists that agree there
      parse alike. */
  lemma {:induction false} ParseRowsReadsPrefix(rows: seq<string>, rows': seq<string>, catalog: seq<string>)
    requires |catalog| <= |rows| && |catalog| <= |rows'|
    requires rows[..|catalog|] == rows'[..|catalog|]
    ensures ParseRows(rows, catalog) == ParseRows(rows', catalog)
    decreases |catalog|
  {
    if |catalog| > 0 {
      var n := |catalog| - 1;
      assert rows[..n] == rows[..|catalog|][..n];
      assert rows'[..n] == rows'[..|catalog|][..n];
      assert rows[n] == rows[..|catalog|][n];
      assert rows'[n] == rows'[..|catalog|][n];
      ParseRowsReadsPrefix(rows, rows', catalog[..n]);
    }
  }

  /** Anything appended after a payload that already has a row for every
      catalog skill leaves the parse unchanged. */
  lemma ParseIgnoresTrailingRows(payload: string, extra: string, catalog: seq<string>)
    requires |catalog| <= |Strings.Split(payload, '\n')|
    ensures ParsePayload(payload + "\n" + extra, catalog) == ParsePayload(payload, catalog)
  {
    Strings.SplitAppend(payload, extra, '\n');
    var rows := Strings.Split(payload, '\n');
    var rows' := Strings.Split(payload + "\n" + extra, '\n');
    assert rows' == rows + Strings.Split(extra, '\n');
    assert rows'[..|catalog|] == rows[..|catalog|];
    ParseRowsReadsPrefix(rows, rows', catalog);
  }
}
