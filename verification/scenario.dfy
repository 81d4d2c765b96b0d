/**
 The country control of the demo form: display and value attribute `name`,
 `required` set, and the five countries of the application shell's list.
 */
module Scenario {
  import opened Wrappers
  import opened Values
  import opened Text
  import opened Filtering
  import opened Autocomplete

  const India: OptionRecord := map["name" := "India", "capital" := "New Delhi", "language" := "Hindi, English"]
  const UnitedStates: OptionRecord := map["name" := "United States", "capital" := "Washington, D.C.", "language" := "English"]
  const France: OptionRecord := map["name" := "France", "capital" := "Paris", "language" := "French"]
  const Japan: OptionRecord := map["name" := "Japan", "capital" := "Tokyo", "language" := "Japanese"]
  const Brazil: OptionRecord := map["name" := "Brazil", "capital" := "Bras√≠lia", "language" := "Portuguese"]
  const Countries: seq<OptionRecord> := [India, UnitedStates, France, Japan, Brazil]

  /** A name whose lower-cased form has no letter `f` does not match the query `fr`. */
  lemma DroppedWithoutF(o: OptionRecord, lowered: string)
    requires "name" in o && Lower(o["name"]) == lowered
    requires forall i :: 0 <= i < |lowered| ==> lowered[i] != 'f'
    ensures !Matches(o, "name", Str("fr"))
  {
    assert Query(Str("fr")) == "fr";
    forall i | 0 <= i && i + 2 <= |lowered|
      ensures !OccursAt(lowered, "fr", i)
    {
      assert lowered[i..i + 2][0] == lowered[i] != 'f';
    }
  }

  lemma IndiaDropped() ensures !Matches(India, "name", Str("fr"))
  {
    DroppedWithoutF(India, "india");
  }

  lemma UnitedStatesDropped() ensures !Matches(UnitedStates, "name", Str("fr"))
  {
    DroppedWithoutF(UnitedStates, "united states");
  }

  lemma JapanDropped() ensures !Matches(Japan, "name", Str("fr"))
  {
    DroppedWithoutF(Japan, "japan");
  }

  lemma BrazilDropped() ensures !Matches(Brazil, "name", Str("fr"))
  {
    DroppedWithoutF(Brazil, "brazil");
  }

  lemma FranceKept() ensures Matches(France, "name", Str("fr"))
  {
    assert Query(Str("fr")) == "fr";
    assert Lower("France") == "france";
    assert OccursAt("france", "fr", 0);
  }

  /** Of France, Japan and Brazil, typing `fr` keeps France. */
  lemma FilterTail()
    ensures Filter([France, Japan, Brazil], "name", Str("fr")) == [France]
  {
    FranceKept();
    JapanDropped();
    BrazilDropped();
    assert Filter([Brazil], "name", Str("fr")) == [];
    assert [Japan, Brazil][1..] == [Brazil];
    assert Filter([Japan, Brazil], "name", Str("fr")) == [];
    assert [France, Japan, Brazil][1..] == [Japan, Brazil];
  }

  /** Typing `fr` leaves only France among the five countries. */
  lemma TypingFrShowsFrance()
    ensures Filter(Countries, "name", Str("fr")) == [France]
  {
    IndiaDropped();
    UnitedStatesDropped();
    FilterTail();
    assert Countries[1..] == [UnitedStates, France, Japan, Brazil];
    assert Countries[1..][1..] == [France, Japan, Brazil];
  }

  /** France is the first country named `France`. */
  lemma FranceFirstNamed()
    ensures FirstMatch(Countries, "name", Str("France"), 2)
  {
    assert Get(India, "name") == Str("India");
    assert Get(UnitedStates, "name") == Str("United States");
    assert Get(France, "name") == Str("France");
  }

  /**
   Starting the country control, typing `fr` and picking `France` puts
   `France` in the control, emits the France record and satisfies
   `required`.
   */
  lemma PickFrance()
    ensures Create(Countries, "name", "name", true).Valid()
    ensures var c := Pick(Type(Init(Create(Countries, "name", "name", true)), "fr"), Str("France"));
            && c.value == Str("France")
            && c.events == [Selected(France)]
            && Validate(true, HostValue(c.calls, Null)) == None
  {
    var c0 := Type(Init(Create(Countries, "name", "name", true)), "fr");
    FranceFirstNamed();
    PickSatisfiesRequired(c0, Str("France"), 2, Null);
  }
}
