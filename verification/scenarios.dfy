/** Concrete cases: the catalog as the service ships it, the "strength"
    lookup the usage example performs, and the empty-name quirk of
    `Player.GetSkill`. */
module Scenarios {
  import opened Errors
  import Strings
  import Parser
  import ParserExamples
  import opened Hiscores

  /** The shipped catalog: 24 names, "overall" first and "strength"
      fourth. */
  lemma CatalogShape()
    ensures |Catalog| == 24
    ensures Catalog[0] == "overall" && Catalog[3] == "strength"
  {
  }

  /** "strength" is listed once: no later name repeats it. */
  lemma StrengthListedOnce()
    ensures Catalog[3] !in Catalog[4..]
  {
    assert forall i :: 4 <= i < |Catalog| ==> Catalog[i] != Catalog[3];
  }

  /** No skill name is listed twice. */
  lemma CatalogDistinct()
    ensures forall i, j :: 0 <= i < j < |Catalog| ==> Catalog[i] != Catalog[j]
  {
  }

  /** Against the shipped catalog a successful parse stores, under the name
      at every position i, what row i parses to. */
  lemma ShippedRowsByPosition(rows: seq<string>, i: nat)
    requires Parser.ParseRows(rows, Catalog).Ok?
    requires i < |Catalog|
    ensures i < |rows| && Catalog[i] in Parser.ParseRows(rows, Catalog).value
    ensures Parser.ParseRow(rows[i]) == Ok(Parser.ParseRows(rows, Catalog).value[Catalog[i]])
  {
    assert Catalog[i] !in Catalog[i + 1..] by {
      CatalogDistinct();
    }
    Parser.ParseRowsValues(rows, Catalog, i);
  }

  /** No skill of the catalog has the empty name. */
  lemma NoEmptySkillName()
    ensures "" !in Catalog
  {
    assert forall i :: 0 <= i < |Catalog| ==> |Catalog[i]| > 0;
  }

  /** A fresh service fetching a payload whose fourth row is
      "1142579,75,1271864" makes one remote read, and the record it returns
      holds xp 1142579, rank 1271864 and level 75 for "strength". */
  lemma StrengthLookup(payload: string, now: int, order: seq<string>)
    requires Parser.ParsePayload(payload, Catalog).Ok?
    requires Strings.Split(payload, '\n')[3] == "1142579,75,1271864"
    requires IsEnumeration(order, set c | c in Catalog)
    ensures
      var s := GetPlayer(NewHiscores(), "zezima", now, Body(payload));
      && s.result.Ok? && s.fetches == 1
      && GetSkill(s.result.value, "strength", order) == Ok(Ref(Parser.Stats(1142579, 1271864, 75)))
      && GetSkillIntended(s.result.value, "strength", order) == Ok(Parser.Stats(1142579, 1271864, 75))
  {
    var rows := Strings.Split(payload, '\n');
    CatalogShape();
    StrengthListedOnce();
    Parser.ParseRowsKeys(rows, Catalog);
    Parser.ParseRowsValues(rows, Catalog, 3);
    ParserExamples.StrengthRow(rows[3]);
  }

  /** The empty-name quirk, on a record as `GetPlayer` builds it for any
      service whose catalog is non-empty and has no empty name (the shipped
      one, by `CatalogShape` and `NoEmptySkillName`): `GetSkill` accepts ""
      and returns a nil statistic with no error, although no skill is called
      "". The intended check refuses it. */
  lemma GetSkillAcceptsEmptyName(h: Hiscores, rsn: string, now: int, response: Response, order: seq<string>)
    requires Valid(h) && |h.skills| > 0 && "" !in h.skills
    requires GetPlayer(h, rsn, now, response).result.Ok?
    requires IsEnumeration(order, set c | c in h.skills)
    ensures
      var p := GetPlayer(h, rsn, now, response).result.value;
      && GetSkill(p, "", order) == Ok(Nil)
      && GetSkillIntended(p, "", order) == Err(InvalidSkill(order))
  {
    var p := GetPlayer(h, rsn, now, response).result.value;
    assert h.skills[0] in p.stats;
  }
}
