/** Concrete rows and payloads read by the parser: field 0 is the xp,
    field 1 the level and field 2 the rank.

    The lemmas take their rows and payloads as parameters fixed by a
    `requires row == "..."` rather than writing the literal into the
    `ensures`. Applied to a literal argument, Dafny evaluates `ParseRow` and
    `Split` all the way down, character by character, and the proof becomes
    too expensive. Applied to a parameter, the functions are only unfolded
    as far as the proof steps ask. For the same reason a number's digits
    are established one `FormatNatStep` at a time instead of by evaluating
    `FormatInt` on the whole number. */
module ParserExamples {
  import opened Errors
  import Strings
  import Strconv
  import Parser

  /** Two rows read against a two-name catalog. */
  lemma ParseTwoRows(payload: string, catalog: seq<string>)
    requires payload == "1000,10,500\n2000,20,600" && catalog == ["overall", "attack"]
    ensures Parser.ParsePayload(payload, catalog) ==
      Ok(map["overall" := Parser.Stats(1000, 500, 10), "attack" := Parser.Stats(2000, 600, 20)])
  {
    TwoRowPayloadSplits(payload);
    TwoRowsParse(Strings.Split(payload, '\n'));
  }

  lemma TwoRowPayloadSplits(payload: string)
    requires payload == "1000,10,500\n2000,20,600"
    ensures Strings.Split(payload, '\n') == ["1000,10,500", "2000,20,600"]
  {
    SplitTwo(payload, "1000,10,500", "2000,20,600");
  }

  /** Two newline-free rows joined by a newline split back into the two. */
  lemma SplitTwo(payload: string, r1: string, r2: string)
    requires '\n' !in r1 && '\n' !in r2
    requires payload == r1 + "\n" + r2
    ensures Strings.Split(payload, '\n') == [r1, r2]
  {
    Strings.SplitAppend(r1, r2, '\n');
  }

  lemma TwoRowsParse(rows: seq<string>)
    requires rows == ["1000,10,500", "2000,20,600"]
    ensures Parser.ParseRows(rows, ["overall", "attack"]) ==
      Ok(map["overall" := Parser.Stats(1000, 500, 10), "attack" := Parser.Stats(2000, 600, 20)])
  {
    FirstRow(rows[0]);
    SecondRow(rows[1]);
    TwoRows("1000,10,500", "2000,20,600", Parser.Stats(1000, 500, 10), Parser.Stats(2000, 600, 20), "overall", "attack");
  }

  /** Two well-formed rows under two distinct names read into a two-entry
      map. */
  lemma TwoRows(r1: string, r2: string, st1: Parser.Stats, st2: Parser.Stats, n1: string, n2: string)
    requires n1 != n2
    requires Parser.ParseRow(r1) == Ok(st1) && Parser.ParseRow(r2) == Ok(st2)
    ensures Parser.ParseRows([r1, r2], [n1, n2]) == Ok(map[n1 := st1, n2 := st2])
  {
    var m := map[n1 := st1, n2 := st2];
    Parser.ParseRowsOfRendered([r1, r2], [n1, n2], m);
    assert (map k | k in [n1, n2] :: m[k]) == m;
  }

  /** A row spelled out as three rendered numbers parses to them. */
  lemma RenderedRow(row: string, x: string, l: string, k: string, st: Parser.Stats)
    requires Parser.InRange32(st)
    requires Strconv.FormatInt(st.xp) == x && Strconv.FormatInt(st.level) == l && Strconv.FormatInt(st.rank) == k
    requires row == x + "," + l + "," + k
    ensures Parser.ParseRow(row) == Ok(st)
  {
    Parser.ParseFormatRow(st);
  }

  lemma FirstRow(row: string)
    requires row == "1000,10,500"
    ensures Parser.ParseRow(row) == Ok(Parser.Stats(1000, 500, 10))
  {
    Strconv.FormatNatStep(1, 0);
    Strconv.FormatNatStep(10, 0);
    Strconv.FormatNatStep(100, 0);
    Strconv.FormatNatStep(5, 0);
    Strconv.FormatNatStep(50, 0);
    RenderedRow(row, "1000", "10", "500", Parser.Stats(1000, 500, 10));
  }

  lemma SecondRow(row: string)
    requires row == "2000,20,600"
    ensures Parser.ParseRow(row) == Ok(Parser.Stats(2000, 600, 20))
  {
    Strconv.FormatNatStep(2, 0);
    Strconv.FormatNatStep(20, 0);
    Strconv.FormatNatStep(200, 0);
    Strconv.FormatNatStep(6, 0);
    Strconv.FormatNatStep(60, 0);
    RenderedRow(row, "2000", "20", "600", Parser.Stats(2000, 600, 20));
  }

  /** The row the usage example reads for "strength". */
  lemma StrengthRow(row: string)
    requires row == "1142579,75,1271864"
    ensures Parser.ParseRow(row) == Ok(Parser.Stats(1142579, 1271864, 75))
  {
    var st := Parser.Stats(1142579, 1271864, 75);
    StrengthRowText(st, row);
    Parser.ParseFormatRow(st);
  }

  lemma StrengthRowText(st: Parser.Stats, row: string)
    requires st == Parser.Stats(1142579, 1271864, 75)
    requires row == "1142579,75,1271864"
    ensures Parser.FormatRow(st) == row
  {
    var x, l, k := "1142579", "75", "1271864";
    assert Strconv.FormatInt(st.xp) == x by { XpDigits(); }
    assert Strconv.FormatInt(st.level) == l by { Strconv.FormatNatStep(7, 5); }
    assert Strconv.FormatInt(st.rank) == k by { RankDigits(); }
    assert row == x + "," + l + "," + k;
  }

  lemma XpDigits()
    ensures Strconv.FormatInt(1142579) == "1142579"
  {
    Strconv.FormatNatStep(1, 1);
    Strconv.FormatNatStep(11, 4);
    Strconv.FormatNatStep(114, 2);
    Strconv.FormatNatStep(1142, 5);
    Strconv.FormatNatStep(11425, 7);
    Strconv.FormatNatStep(114257, 9);
  }

  lemma RankDigits()
    ensures Strconv.FormatInt(1271864) == "1271864"
  {
    Strconv.FormatNatStep(1, 2);
    Strconv.FormatNatStep(12, 7);
    Strconv.FormatNatStep(127, 1);
    Strconv.FormatNatStep(1271, 8);
    Strconv.FormatNatStep(12718, 6);
    Strconv.FormatNatStep(127186, 4);
  }
}
