/**
  The two endpoints of app/main.py. `read_top_foods` ranks the foods of ten
  category keywords; `read_food_by_phase` ranks one food per nutrient of a
  phase of the menstrual cycle. The validators, the category lookup and the
  rankings query the database and are not shown in the repository: they
  are parameters here, and every call made to them is recorded, in order,
  in a trace.
 */
module Api {
  import opened Wrappers
  import opened Seqs
  import opened Dict
  import opened Categories

  /** The errors the endpoints raise. */
  datatype ApiError =
    | InvalidParameters       // validate_params rejects the nutrient or the percentage
    | InvalidPhase            // validate_phase rejects the phase
    | UnknownPhase(phase: string)  // `phases[phase]` raises KeyError

  /** A call to one of the collaborators, with the arguments that matter. */
  datatype Call =
    | ValidateParams(nutrient: string, percentage: real)
    | MapCategories(keywords: seq<string>)
    | TopFoodsByCategory(categories: seq<string>, percentage: real, nutrient: string)
    | ValidatePhase(phase: string, phases: seq<string>)
    | TopFoodByNutrient(nutrient: string, percentage: real)

  // ---------------------------------------------------------------------------
  // read_top_foods
  // ---------------------------------------------------------------------------

  /** The category keywords of read_top_foods, in order. */
  const TopFoodKeywords: seq<string> := [
    "Fruits", "Légumes", "Lait", "Poisson", "Œufs", "Produits céréaliers", "Noix", "arômes",
    "viande", "petit-déjeuner"]

  /** One element of the response: `{"categorie": key, "aliments": top_foods}`. */
  datatype CategoryFoods<F> = CategoryFoods(categorie: string, aliments: F)

  /** The response for the mapping `mapping` that map_categories returned. */
  function TopFoods<F>(nutrient: string, percentage: real, valid: bool, mapping: Dict<seq<string>>,
                       rank: (seq<string>, real, string) -> F): Result<seq<CategoryFoods<F>>, ApiError>
  {
    if !valid then Failure(InvalidParameters)
    else Success(seq(|mapping|, i requires 0 <= i < |mapping| =>
      CategoryFoods(mapping[i].key, rank(mapping[i].value, percentage, nutrient))))
  }

  /** The calls read_top_foods makes, in order. */
  function TopFoodsCalls(nutrient: string, percentage: real, valid: bool, mapping: Dict<seq<string>>): seq<Call> {
    var ranks := seq(|mapping|, i requires 0 <= i < |mapping| => TopFoodsByCategory(mapping[i].value, percentage, nutrient));
    [ValidateParams(nutrient, percentage)] + if !valid then [] else [MapCategories(TopFoodKeywords)] + ranks
  }

  /**
    `read_top_foods(nutrient, percentage)`: validate, map the keywords to
    category names, then append one ranked entry per entry of the mapping.
    validate_params raises unless `validParams` holds.
   */
  method ReadTopFoods<F>(nutrient: string, percentage: real,
                         validParams: (string, real) -> bool,
                         mapCategories: seq<string> -> Dict<seq<string>>,
                         rank: (seq<string>, real, string) -> F)
    returns (r: Result<seq<CategoryFoods<F>>, ApiError>, calls: seq<Call>)
    ensures r == TopFoods(nutrient, percentage, validParams(nutrient, percentage), mapCategories(TopFoodKeywords), rank)
    ensures calls == TopFoodsCalls(nutrient, percentage, validParams(nutrient, percentage), mapCategories(TopFoodKeywords))
  {
    var categories := TopFoodKeywords;
    calls := [ValidateParams(nutrient, percentage)];
    if !validParams(nutrient, percentage) {
      return Failure(InvalidParameters), calls;
    }
    var mapping := mapCategories(categories);
    calls := calls + [MapCategories(categories)];
    ghost var start := calls;
    var result: seq<CategoryFoods<F>> := [];
    for i := 0 to |mapping|
      invariant |result| == i
      invariant forall j :: 0 <= j < i ==> result[j] == CategoryFoods(mapping[j].key, rank(mapping[j].value, percentage, nutrient))
      invariant |calls| == |start| + i && calls[..|start|] == start
      invariant forall j :: 0 <= j < i ==> calls[|start| + j] == TopFoodsByCategory(mapping[j].value, percentage, nutrient)
    {
      var topFoods := rank(mapping[i].value, percentage, nutrient);
      calls := calls + [TopFoodsByCategory(mapping[i].value, percentage, nutrient)];
      result := result + [CategoryFoods(mapping[i].key, topFoods)];
    }
    assert result == TopFoods(nutrient, percentage, true, mapping, rank).value;
    assert calls == TopFoodsCalls(nutrient, percentage, true, mapping);
    r := Success(result);
  }

  /**
    Parameters are validated before anything else: the first call is the
    validation, and when it fails no mapping or ranking is asked for.
    Otherwise the mapping comes next, then one ranking per mapped entry,
    in entry order, each given that entry's category names.
   */
  lemma TopFoodsCallOrder(nutrient: string, percentage: real, valid: bool, mapping: Dict<seq<string>>)
    ensures var calls := TopFoodsCalls(nutrient, percentage, valid, mapping);
      && calls[0] == ValidateParams(nutrient, percentage)
      && (!valid <==> |calls| == 1)
      && (valid ==>
        && |calls| == |mapping| + 2
        && calls[1] == MapCategories(TopFoodKeywords)
        && forall i :: 0 <= i < |mapping| ==> calls[i + 2] == TopFoodsByCategory(mapping[i].value, percentage, nutrient))
  {
  }

  /** The keywords are distinct, so the mapping has one entry per keyword. */
  lemma TopFoodKeywordsDistinct()
    ensures Distinct(TopFoodKeywords)
  {
  }

  /**
    When map_categories is get_category_mapping over the known category
    names `known`, the response has one entry per keyword, in the order of
    the keyword list, and the ranking for keyword `k` is given exactly the
    known names that match `k`.
   */
  lemma TopFoodsForKnownCategories<F>(nutrient: string, percentage: real, known: seq<string>,
                                      rank: (seq<string>, real, string) -> F)
    ensures var r := TopFoods(nutrient, percentage, true, CategoryMapping(TopFoodKeywords, known), rank);
      && r.Success?
      && |r.value| == |TopFoodKeywords|
      && forall i :: 0 <= i < |TopFoodKeywords| ==>
        r.value[i] == CategoryFoods(TopFoodKeywords[i], rank(MatchingCategories(TopFoodKeywords[i], known), percentage, nutrient))
  {
    var m := CategoryMapping(TopFoodKeywords, known);
    CategoryMappingProperties(TopFoodKeywords, known);
    TopFoodKeywordsDistinct();
    DedupOfDistinct(TopFoodKeywords);
    assert Keys(m) == TopFoodKeywords;
  }

  // ---------------------------------------------------------------------------
  // The phases table and read_food_by_phase
  // ---------------------------------------------------------------------------

  /** A `(nutrient, categories)` pair of the phases table; the categories are a hint nobody reads. */
  datatype NutrientHint = NutrientHint(name: string, categories: seq<string>)

  /** `phases`: the nutrients to rank for each phase of the cycle. */
  const Phases: Dict<seq<NutrientHint>> := [
    Entry("menstruelle", [
      NutrientHint("fer", []),
      NutrientHint("vitamine_c", ["Fruits", "Légumes"]),
      NutrientHint("magnesium", []),
      NutrientHint("acide_alpha_linolenique", ["Poissons"])]),
    Entry("folliculaire", [
      NutrientHint("proteines", []),
      NutrientHint("*", ["Légumes"]),
      NutrientHint("glucides_disponibles", ["flocons et céréales"])]),
    Entry("ovulatoire", [
      NutrientHint("zinc", ["Fruits de mer", "Viande"]),
      NutrientHint("fibres_alimentaires", []),
      NutrientHint("vitamine_c", []),
      NutrientHint("selenium", []),
      NutrientHint("zinc", [])]),
    Entry("luteale", [NutrientHint("vitamine_b", []), NutrientHint("magnesium", [])])]

  function NameOf(n: NutrientHint): string {
    n.name
  }

  /**
    The assignments `top_food[name] = ...` the loop makes, in order.
    `top(i, name, percentage)` is what the store answers to the `i`-th
    ranking query of the request: two queries for the same nutrient need not
    get the same answer.
   */
  function PhaseAssignments<F>(nutrients: seq<NutrientHint>, percentage: real, top: (nat, string, real) -> F): (ps: seq<Entry<F>>)
    ensures Keys(ps) == Map(nutrients, NameOf)
  {
    seq(|nutrients|, i requires 0 <= i < |nutrients| => Entry(nutrients[i].name, top(i, nutrients[i].name, percentage)))
  }

  /** The dict the loop builds for the nutrient list `nutrients`. */
  function PhaseResponse<F>(nutrients: seq<NutrientHint>, percentage: real, top: (nat, string, real) -> F): Dict<F> {
    Build(PhaseAssignments(nutrients, percentage, top))
  }

  /** The response for `phase` under the phase table `table`. */
  function FoodByPhaseIn<F>(table: Dict<seq<NutrientHint>>, phase: string, percentage: real, valid: bool,
                            top: (nat, string, real) -> F): Result<seq<Dict<F>>, ApiError>
  {
    if !valid then Failure(InvalidPhase)
    else match Get(table, phase)
      case None => Failure(UnknownPhase(phase))
      case Some(nutrients) => Success([PhaseResponse(nutrients, percentage, top)])
  }

  /** One ranking call per nutrient, in order, with the name and the percentage only. */
  function RankCalls(nutrients: seq<NutrientHint>, percentage: real): (calls: seq<Call>)
    ensures |calls| == |nutrients|
    ensures forall i :: 0 <= i < |nutrients| ==> calls[i] == TopFoodByNutrient(nutrients[i].name, percentage)
  {
    seq(|nutrients|, i requires 0 <= i < |nutrients| => TopFoodByNutrient(nutrients[i].name, percentage))
  }

  /** The calls read_food_by_phase makes under `table`, in order. */
  function FoodByPhaseCallsIn(table: Dict<seq<NutrientHint>>, phase: string, percentage: real, valid: bool): seq<Call> {
    [ValidatePhase(phase, Keys(table))] + if !valid || Get(table, phase).None? then [] else RankCalls(Get(table, phase).value, percentage)
  }

  /**
    `read_food_by_phase(phase, percentage)`: validate the phase against the
    keys of the table, then, for every nutrient of the phase in order, rank
    and store the result under the nutrient's name, overwriting an earlier
    entry for the same name. validate_phase raises unless `validPhase` holds.
   */
  method ReadFoodByPhase<F>(phase: string, percentage: real,
                            validPhase: (string, seq<string>) -> bool,
                            top: (nat, string, real) -> F)
    returns (r: Result<seq<Dict<F>>, ApiError>, calls: seq<Call>)
    ensures r == FoodByPhaseIn(Phases, phase, percentage, validPhase(phase, Keys(Phases)), top)
    ensures calls == FoodByPhaseCallsIn(Phases, phase, percentage, validPhase(phase, Keys(Phases)))
  {
    r, calls := FoodByPhaseLoop(Phases, phase, percentage, validPhase, top);
  }

  /** The body of read_food_by_phase, for the phase table `table`. */
  method FoodByPhaseLoop<F>(table: Dict<seq<NutrientHint>>, phase: string, percentage: real,
                            validPhase: (string, seq<string>) -> bool,
                            top: (nat, string, real) -> F)
    returns (r: Result<seq<Dict<F>>, ApiError>, calls: seq<Call>)
    ensures r == FoodByPhaseIn(table, phase, percentage, validPhase(phase, Keys(table)), top)
    ensures calls == FoodByPhaseCallsIn(table, phase, percentage, validPhase(phase, Keys(table)))
  {
    calls := [ValidatePhase(phase, Keys(table))];
    if !validPhase(phase, Keys(table)) {
      return Failure(InvalidPhase), calls;
    }
    var found := Get(table, phase);
    if found.None? {
      return Failure(UnknownPhase(phase)), calls;
    }
    var topFood, made := AccumulateTopFoods(found.value, percentage, top);
    calls := calls + made;
    r := Success([topFood]);
  }

  /** The loop of read_food_by_phase over the nutrients of the phase: `top_food[name] = ...`. */
  method AccumulateTopFoods<F>(nutrients: seq<NutrientHint>, percentage: real, top: (nat, string, real) -> F)
    returns (topFood: Dict<F>, made: seq<Call>)
    ensures topFood == PhaseResponse(nutrients, percentage, top)
    ensures made == RankCalls(nutrients, percentage)
  {
    ghost var assignments := PhaseAssignments(nutrients, percentage, top);
    ghost var ranks := RankCalls(nutrients, percentage);
    topFood := [];
    made := [];
    for i := 0 to |nutrients|
      invariant topFood == Build(assignments[..i])
      invariant made == ranks[..i]
    {
      var name := nutrients[i].name;
      BuildStep(assignments, i);
      topFood := Put(topFood, name, top(i, name, percentage));
      SliceStep(ranks, i);
      made := made + [TopFoodByNutrient(name, percentage)];
    }
    assert assignments[..|nutrients|] == assignments;
    assert ranks[..|nutrients|] == ranks;
  }

  /** Building from one more assignment is one more `d[k] = v`. */
  lemma BuildStep<V>(ps: seq<Entry<V>>, i: nat)
    requires i < |ps|
    ensures Build(ps[..i + 1]) == Put(Build(ps[..i]), ps[i].key, ps[i].value)
  {
    assert ps[..i + 1][..i] == ps[..i];
  }

  /**
    The dict built for a nutrient list has the list's names as keys, in
    first-occurrence order and each once, and holds for a name the ranking
    of its last occurrence.
   */
  lemma PhaseResponseSpec<F>(nutrients: seq<NutrientHint>, percentage: real, top: (nat, string, real) -> F)
    ensures Keys(PhaseResponse(nutrients, percentage, top)) == Dedup(Map(nutrients, NameOf))
    ensures Distinct(Keys(PhaseResponse(nutrients, percentage, top)))
    ensures forall k :: Get(PhaseResponse(nutrients, percentage, top), k).Some? <==>
      exists i :: 0 <= i < |nutrients| && nutrients[i].name == k
    ensures forall i :: 0 <= i < |nutrients| && (forall j :: i < j < |nutrients| ==> nutrients[j].name != nutrients[i].name) ==>
      Get(PhaseResponse(nutrients, percentage, top), nutrients[i].name) == Some(top(i, nutrients[i].name, percentage))
  {
    var ps := PhaseAssignments(nutrients, percentage, top);
    BuildProperties(ps);
    forall k ensures Get(Build(ps), k).Some? <==> exists i :: 0 <= i < |nutrients| && nutrients[i].name == k {
      if Get(ps, k).Some? {
        var i :| 0 <= i < |ps| && Keys(ps)[i] == k;
        assert nutrients[i].name == k;
      } else {
        forall i | 0 <= i < |nutrients| ensures nutrients[i].name != k {
          assert Keys(ps)[i] == nutrients[i].name;
        }
      }
    }
    forall i | 0 <= i < |nutrients| && (forall j :: i < j < |nutrients| ==> nutrients[j].name != nutrients[i].name)
      ensures Get(Build(ps), nutrients[i].name) == Some(top(i, nutrients[i].name, percentage))
    {
      GetIsLastWrite(ps, nutrients[i].name, i);
    }
  }

  /**
    The phase is validated first. A known, valid phase answers with a
    one-element list holding the dict of its nutrient list, after one
    ranking call per nutrient, in order, given only the name and the
    percentage: the category hints are never passed on.
   */
  lemma FoodByPhaseSpec<F>(table: Dict<seq<NutrientHint>>, phase: string, percentage: real, valid: bool,
                           top: (nat, string, real) -> F)
    ensures FoodByPhaseCallsIn(table, phase, percentage, valid)[0] == ValidatePhase(phase, Keys(table))
    ensures FoodByPhaseIn(table, phase, percentage, valid, top).Success? <==> valid && phase in Keys(table)
    ensures valid && phase in Keys(table) ==>
      var nutrients := Get(table, phase).value;
      && FoodByPhaseIn(table, phase, percentage, valid, top) == Success([PhaseResponse(nutrients, percentage, top)])
      && FoodByPhaseCallsIn(table, phase, percentage, valid) == [ValidatePhase(phase, Keys(table))] + RankCalls(nutrients, percentage)
    ensures !(valid && phase in Keys(table)) ==> FoodByPhaseCallsIn(table, phase, percentage, valid) == [ValidatePhase(phase, Keys(table))]
  {
  }

  /** The four phases of the table, in order, and the nutrient lists of the last two. */
  lemma PhasesKeys()
    ensures Keys(Phases) == ["menstruelle", "folliculaire", "ovulatoire", "luteale"]
    ensures Get(Phases, "ovulatoire") == Some(Phases[2].value)
    ensures Get(Phases, "luteale") == Some(Phases[3].value)
  {
    GetIsLastWrite(Phases, "ovulatoire", 2);
    GetIsLastWrite(Phases, "luteale", 3);
  }

  /** The luteal phase answers with the keys "vitamine_b" and "magnesium". */
  lemma LutealKeys<F>(percentage: real, top: (nat, string, real) -> F)
    ensures var r := FoodByPhaseIn(Phases, "luteale", percentage, true, top);
      && r.Success?
      && Keys(r.value[0]) == ["vitamine_b", "magnesium"]
  {
    PhasesKeys();
    var nutrients := Phases[3].value;
    PhaseResponseSpec(nutrients, percentage, top);
    assert Map(nutrients, NameOf) == ["vitamine_b", "magnesium"];
    DedupOfDistinct(Map(nutrients, NameOf));
  }

  /**
    The ovulatory phase lists zinc twice: five ranking calls are made but
    the dict has four keys, zinc first, holding the answer to the fifth
    query (the second zinc), not to the first.
   */
  lemma OvulatoryKeys<F>(percentage: real, top: (nat, string, real) -> F)
    ensures var r := FoodByPhaseIn(Phases, "ovulatoire", percentage, true, top);
      && r.Success?
      && Keys(r.value[0]) == ["zinc", "fibres_alimentaires", "vitamine_c", "selenium"]
      && Get(r.value[0], "zinc") == Some(top(4, "zinc", percentage))
    ensures |FoodByPhaseCallsIn(Phases, "ovulatoire", percentage, true)| == 6
  {
    PhasesKeys();
    var nutrients := Phases[2].value;
    OvulatoryNames();
    PhaseResponseSpec(nutrients, percentage, top);
    var firsts := ["zinc", "fibres_alimentaires", "vitamine_c", "selenium"];
    OvulatoryFirstsDistinct();
    assert firsts[0] == "zinc";
    DedupRepeated(firsts, "zinc");
    assert nutrients[4].name == "zinc";
  }

  lemma OvulatoryFirstsDistinct()
    ensures Distinct(["zinc", "fibres_alimentaires", "vitamine_c", "selenium"])
  {
  }

  lemma OvulatoryNames()
    ensures Map(Phases[2].value, NameOf) == ["zinc", "fibres_alimentaires", "vitamine_c", "selenium"] + ["zinc"]
  {
  }
}
