/**
  The category matcher of app/utils.py: which of the category names stored in
  the food table belong to a short category keyword such as "Fruits".
 */
module Categories {
  import opened Wrappers
  import opened Text
  import opened Seqs
  import opened Dict

  /** Category names containing one of these words (lower-cased) are never matched. */
  const ForbiddenKeywords: seq<string> := ["boissons", "sucreries", "bonbons"]

  /** The keyword for which seafood ("fruits de mer") is excluded. */
  const FruitKeyword: string := "Fruits"

  const Seafood: string := "fruits de mer"

  /**
    `valid_category`: reject a category whose lower-case form contains a
    forbidden word, and reject seafood when the keyword is exactly "Fruits".
   */
  predicate ValidCategory(category: string, keyword: string) {
    var lc := Lower(category);
    && (forall w :: w in ForbiddenKeywords ==> !Contains(lc, w))
    && !(keyword == FruitKeyword && Contains(lc, Seafood))
  }

  /** A forbidden word rejects the category whatever the keyword. */
  lemma ForbiddenWordRejects(category: string, keyword: string, w: string)
    requires w in ForbiddenKeywords && Contains(Lower(category), w)
    ensures !ValidCategory(category, keyword)
  {
  }

  /** The seafood exclusion applies to the keyword "Fruits" and to no other keyword. */
  lemma SeafoodRuleOnlyForFruits(category: string, keyword: string)
    requires forall w :: w in ForbiddenKeywords ==> !Contains(Lower(category), w)
    ensures ValidCategory(category, keyword) <==> !(keyword == "Fruits" && Contains(Lower(category), Seafood))
    ensures keyword != "Fruits" ==> ValidCategory(category, keyword)
  {
  }

  /** The rejected cases of the parametrised validity test. */
  lemma RejectedExamples()
    ensures !ValidCategory("Lait et Boissons au lait", "Lait")
    ensures !ValidCategory("Desserts et sucreries", "Desserts")
    ensures !ValidCategory("Bonbons à la menthe", "Bonbons")
    ensures !ValidCategory("Fruits de mer", "Fruits")
  {
    MilkDrinkRejected();
    SweetsRejected();
    CandyRejected();
    SeafoodRejectedForFruits();
  }

  lemma MilkDrinkRejected()
    ensures !ValidCategory("Lait et Boissons au lait", "Lait")
  {
    ForbiddenAt("Lait et Boissons au lait", "Lait", "boissons", 8);
  }

  lemma SweetsRejected()
    ensures !ValidCategory("Desserts et sucreries", "Desserts")
  {
    ForbiddenAt("Desserts et sucreries", "Desserts", "sucreries", 12);
  }

  lemma CandyRejected()
    ensures !ValidCategory("Bonbons à la menthe", "Bonbons")
  {
    ForbiddenAt("Bonbons à la menthe", "Bonbons", "bonbons", 0);
  }

  lemma SeafoodRejectedForFruits()
    ensures !ValidCategory("Fruits de mer", "Fruits")
  {
    assert Lower("Fruits de mer") == Seafood;
    assert OccursAt(Seafood, Seafood, 0);
  }

  lemma ForbiddenAt(category: string, keyword: string, w: string, i: nat)
    requires w in ForbiddenKeywords && i + |w| <= |category| && Lower(category[i..i + |w|]) == w
    ensures !ValidCategory(category, keyword)
  {
    assert Lower(category)[i..i + |w|] == Lower(category[i..i + |w|]);
    assert OccursAt(Lower(category), w, i);
  }

  /** The accepted cases of the parametrised validity test. */
  lemma AcceptedExamples()
    ensures ValidCategory("Fruits de mer et poissons", "Poisson")
    ensures ValidCategory("Légumes frais", "Légumes")
    ensures ValidCategory("Fruits", "Fruits")
  {
    SeafoodAcceptedForFish();
    FreshVegetablesAccepted();
    FruitsAccepted();
  }

  lemma SeafoodAcceptedForFish()
    ensures ValidCategory("Fruits de mer et poissons", "Poisson")
  {
    FishCategoryAccepted("Fruits de mer et poissons", "Poisson");
  }

  /** SeafoodAcceptedForFish with the name and the keyword given as parameters. */
  lemma FishCategoryAccepted(category: string, keyword: string)
    requires category == "Fruits de mer et poissons" && keyword == "Poisson"
    ensures ValidCategory(category, keyword)
  {
    Accepted(category, keyword, 'c');
  }

  lemma FreshVegetablesAccepted()
    ensures ValidCategory("Légumes frais", "Légumes")
  {
    Accepted("Légumes frais", "Légumes", 'c');
  }

  lemma FruitsAccepted()
    ensures ValidCategory("Fruits", "Fruits")
  {
    Accepted("Fruits", "Fruits", 'c');
  }

  /**
    Neither 'b' nor the letter `x` of "sucreries" ('c' or 'r') occurs in
    either case, so no forbidden word does.
   */
  lemma NoForbiddenWord(category: string, x: char)
    requires x == 'c' || x == 'r'
    requires 'b' !in category && 'B' !in category && x !in category && (x as int - 32) as char !in category
    ensures forall w :: w in ForbiddenKeywords ==> !Contains(Lower(category), w)
  {
    var lc := Lower(category);
    LowerAvoids(category, 'b');
    LowerAvoids(category, x);
    AbsentCharNotContained(lc, "boissons", 0);
    AbsentCharNotContained(lc, "sucreries", if x == 'c' then 2 else 3);
    AbsentCharNotContained(lc, "bonbons", 0);
  }

  /**
    A name without a forbidden word is valid for any keyword but "Fruits",
    and for "Fruits" too when it is shorter than "fruits de mer".
   */
  lemma Accepted(category: string, keyword: string, x: char)
    requires x == 'c' || x == 'r'
    requires 'b' !in category && 'B' !in category && x !in category && (x as int - 32) as char !in category
    requires keyword != FruitKeyword || |category| < |Seafood|
    ensures ValidCategory(category, keyword)
  {
    NoForbiddenWord(category, x);
  }

  /** The condition of the list comprehension in `get_category_mapping`. */
  predicate Matches(category: string, keyword: string) {
    Contains(Lower(category), Lower(keyword)) && ValidCategory(category, keyword)
  }

  /** `[c for c in all_categories if <Matches(c, keyword)>]`. */
  function MatchingCategories(keyword: string, all: seq<string>): seq<string>
    decreases |all|
  {
    if all == [] then []
    else
      var c := all[|all| - 1];
      MatchingCategories(keyword, all[..|all| - 1]) + if Matches(c, keyword) then [c] else []
  }

  /** Soundness and completeness: a name is returned exactly when it is known and matches. */
  lemma {:induction false} MatchingSoundComplete(keyword: string, all: seq<string>)
    ensures forall c :: c in MatchingCategories(keyword, all) <==> c in all && Matches(c, keyword)
  {
    if all != [] {
      var p := all[..|all| - 1];
      MatchingSoundComplete(keyword, p);
      assert all == p + [all[|all| - 1]];
    }
  }

  /** Order: the result is the known names with some deleted, in their order. */
  lemma {:induction false} MatchingOrder(keyword: string, all: seq<string>)
    ensures IsSubsequence(MatchingCategories(keyword, all), all)
  {
    if all != [] {
      var p := all[..|all| - 1];
      var c := all[|all| - 1];
      MatchingOrder(keyword, p);
      assert all == p + [c];
      SubsequenceExtend(MatchingCategories(keyword, p), p, c);
      if Matches(c, keyword) {
        assert MatchingCategories(keyword, all) == MatchingCategories(keyword, p) + [c];
      } else {
        assert MatchingCategories(keyword, all) == MatchingCategories(keyword, p);
      }
    }
  }

  /** Multiplicity: a matching name listed n times is returned n times. */
  lemma {:induction false} MatchingCount(keyword: string, all: seq<string>, c: string)
    ensures multiset(MatchingCategories(keyword, all))[c] == if Matches(c, keyword) then multiset(all)[c] else 0
  {
    if all != [] {
      var p := all[..|all| - 1];
      MatchingCount(keyword, p, c);
      assert all == p + [all[|all| - 1]];
    }
  }

  /** A keyword that matches nothing maps to the empty list, and only such a keyword does. */
  lemma NoMatchIsEmpty(keyword: string, all: seq<string>)
    ensures MatchingCategories(keyword, all) == [] <==> forall c :: c in all ==> !Matches(c, keyword)
  {
    MatchingSoundComplete(keyword, all);
    if MatchingCategories(keyword, all) != [] {
      assert MatchingCategories(keyword, all)[0] in MatchingCategories(keyword, all);
    }
  }

  /** The assignments `category_mapping[k] = ...` in the order the loop makes them. */
  function Assignments(keywords: seq<string>, all: seq<string>): (ps: seq<Entry<seq<string>>>)
    ensures |ps| == |keywords|
    ensures Keys(ps) == keywords
  {
    seq(|keywords|, i requires 0 <= i < |keywords| => Entry(keywords[i], MatchingCategories(keywords[i], all)))
  }

  /** The dict `get_category_mapping(keywords, all)` returns. */
  function CategoryMapping(keywords: seq<string>, all: seq<string>): Dict<seq<string>> {
    Build(Assignments(keywords, all))
  }

  /**
    `get_category_mapping`: the keys are the keywords, in order and each once,
    and every keyword maps to the known names that match it.
   */
  method GetCategoryMapping(keywords: seq<string>, all: seq<string>) returns (m: Dict<seq<string>>)
    ensures m == CategoryMapping(keywords, all)
    ensures Keys(m) == Dedup(keywords)
    ensures forall k :: k in keywords ==> Get(m, k) == Some(MatchingCategories(k, all))
    ensures forall i :: 0 <= i < |m| ==> m[i].value == MatchingCategories(m[i].key, all)
  {
    m := [];
    var i := 0;
    while i < |keywords|
      invariant 0 <= i <= |keywords|
      invariant m == Build(Assignments(keywords[..i], all))
    {
      var keyword := keywords[i];
      assert Assignments(keywords[..i + 1], all)[..i] == Assignments(keywords[..i], all);
      m := Put(m, keyword, MatchingCategories(keyword, all));
      i := i + 1;
    }
    assert keywords[..i] == keywords;
    CategoryMappingProperties(keywords, all);
  }

  lemma CategoryMappingProperties(keywords: seq<string>, all: seq<string>)
    ensures Keys(CategoryMapping(keywords, all)) == Dedup(keywords)
    ensures forall k :: k in keywords ==> Get(CategoryMapping(keywords, all), k) == Some(MatchingCategories(k, all))
    ensures forall i :: 0 <= i < |CategoryMapping(keywords, all)| ==>
      CategoryMapping(keywords, all)[i].value == MatchingCategories(CategoryMapping(keywords, all)[i].key, all)
  {
    var ps := Assignments(keywords, all);
    var m := CategoryMapping(keywords, all);
    BuildProperties(ps);
    forall k | k in keywords
      ensures Get(m, k) == Some(MatchingCategories(k, all))
    {
      var i :| 0 <= i < |keywords| && keywords[i] == k;
      AssignmentsValue(keywords, all, k);
    }
    forall i | 0 <= i < |m|
      ensures m[i].value == MatchingCategories(m[i].key, all)
    {
      var k := m[i].key;
      DedupElements(keywords);
      assert Keys(m)[i] == k;
      AssignmentsValue(keywords, all, k);
      DictEntryIsGet(m, i);
    }
  }

  lemma AssignmentsValue(keywords: seq<string>, all: seq<string>, k: string)
    requires k in keywords
    ensures Get(Assignments(keywords, all), k) == Some(MatchingCategories(k, all))
  {
    var ps := Assignments(keywords, all);
    GetIsLastWrite(ps, k, LastIndex(keywords, k));
  }

  const ExampleCategories: seq<string> := ["Fruits frais", "Fruits de mer", "Légumes cuits", "Boissons sucrées"]

  /** The mapping test: two keywords over four stored category names. */
  lemma CategoryMappingExample()
    ensures CategoryMapping(["Fruits", "Légumes"], ExampleCategories)
         == [Entry("Fruits", ["Fruits frais"]), Entry("Légumes", ["Légumes cuits"])]
  {
    MappingRun(["Fruits", "Légumes"], ExampleCategories);
  }

  /** CategoryMappingExample with the keywords and the names given as parameters. */
  lemma MappingRun(keywords: seq<string>, e: seq<string>)
    requires keywords == ["Fruits", "Légumes"] && e == ExampleCategories
    ensures CategoryMapping(keywords, e) == [Entry(keywords[0], [e[0]]), Entry(keywords[1], [e[2]])]
  {
    FruitsExample();
    VegetablesExample();
    var ps := Assignments(keywords, e);
    var first := [Entry(keywords[0], [e[0]])];
    assert ps == first + [Entry(keywords[1], [e[2]])];
    assert ps[..1] == first;
    assert first[..0] == [];
    assert Build(first) == first;
    assert Keys(first) == [keywords[0]];
    assert keywords[1] !in Keys(first);
    assert Build(ps) == Put(first, keywords[1], [e[2]]);
  }

  /** One step of the comprehension: the next known name is kept exactly when it matches. */
  lemma MatchingStep(keyword: string, p: seq<string>, c: string)
    ensures MatchingCategories(keyword, p + [c]) == MatchingCategories(keyword, p) + if Matches(c, keyword) then [c] else []
  {
    assert (p + [c])[..|p|] == p;
  }

  /** Runs the comprehension over the four example names, given which of them match. */
  lemma ExampleRun(keyword: string, m0: bool, m1: bool, m2: bool, m3: bool)
    requires Matches(ExampleCategories[0], keyword) == m0 && Matches(ExampleCategories[1], keyword) == m1
    requires Matches(ExampleCategories[2], keyword) == m2 && Matches(ExampleCategories[3], keyword) == m3
    ensures MatchingCategories(keyword, ExampleCategories) ==
      (if m0 then [ExampleCategories[0]] else []) + (if m1 then [ExampleCategories[1]] else []) +
      (if m2 then [ExampleCategories[2]] else []) + (if m3 then [ExampleCategories[3]] else [])
  {
    var e := ExampleCategories;
    var x0 := if m0 then [e[0]] else [];
    var x1 := if m1 then [e[1]] else [];
    var x2 := if m2 then [e[2]] else [];
    var x3 := if m3 then [e[3]] else [];
    assert [] + [e[0]] == [e[0]];
    MatchingStep(keyword, [], e[0]);
    assert MatchingCategories(keyword, [e[0]]) == x0;
    assert [e[0]] + [e[1]] == [e[0], e[1]];
    MatchingStep(keyword, [e[0]], e[1]);
    assert MatchingCategories(keyword, [e[0], e[1]]) == x0 + x1;
    assert [e[0], e[1]] + [e[2]] == [e[0], e[1], e[2]];
    MatchingStep(keyword, [e[0], e[1]], e[2]);
    assert MatchingCategories(keyword, [e[0], e[1], e[2]]) == x0 + x1 + x2;
    assert [e[0], e[1], e[2]] + [e[3]] == e;
    MatchingStep(keyword, [e[0], e[1], e[2]], e[3]);
  }

  lemma FruitsExample()
    ensures MatchingCategories("Fruits", ExampleCategories) == ["Fruits frais"]
  {
    FruitsRun("Fruits", ExampleCategories);
  }

  /** FruitsExample with the keyword and the names given as parameters. */
  lemma FruitsRun(keyword: string, e: seq<string>)
    requires keyword == "Fruits" && e == ExampleCategories
    ensures MatchingCategories(keyword, e) == [e[0]]
  {
    FreshFruitMatches();
    SeafoodNotFruit();
    NoInitialNoMatch(e[2], keyword, 'f');
    NoInitialNoMatch(e[3], keyword, 'f');
    ExampleRun(keyword, true, false, false, false);
  }

  lemma FreshFruitMatches()
    ensures Matches("Fruits frais", "Fruits")
  {
    MatchesAtStart("Fruits frais", "Fruits", "fruits");
    Accepted("Fruits frais", "Fruits", 'c');
  }

  lemma SeafoodNotFruit()
    ensures !Matches("Fruits de mer", "Fruits")
  {
    SeafoodRejectedForFruits();
  }

  /** A name that starts with the keyword, up to case, contains the lower-cased keyword once lower-cased. */
  lemma MatchesAtStart(category: string, keyword: string, lk: string)
    requires Lower(keyword) == lk && |lk| <= |category| && Lower(category[..|lk|]) == lk
    ensures Contains(Lower(category), Lower(keyword))
  {
    assert Lower(category)[..|lk|] == Lower(category[..|lk|]);
    assert OccursAt(Lower(category), lk, 0);
  }

  /** A name lacking both cases of the keyword's first letter `l` does not match the keyword. */
  lemma NoInitialNoMatch(category: string, keyword: string, l: char)
    requires keyword != [] && LowerChar(keyword[0]) == l && 'a' <= l <= 'z'
    requires l !in category && (l as int - 32) as char !in category
    ensures !Matches(category, keyword)
  {
    assert Lower(keyword)[0] == l;
    LowerAvoids(category, l);
    AbsentCharNotContained(Lower(category), Lower(keyword), 0);
  }

  lemma VegetablesExample()
    ensures MatchingCategories("Légumes", ExampleCategories) == ["Légumes cuits"]
  {
    VegetablesRun("Légumes", ExampleCategories);
  }

  /** VegetablesExample with the keyword and the names given as parameters. */
  lemma VegetablesRun(keyword: string, e: seq<string>)
    requires keyword == "Légumes" && e == ExampleCategories
    ensures MatchingCategories(keyword, e) == [e[2]]
  {
    NoInitialNoMatch(e[0], keyword, 'l');
    NoInitialNoMatch(e[1], keyword, 'l');
    CookedVegetablesMatch();
    NoInitialNoMatch(e[3], keyword, 'l');
    ExampleRun(keyword, false, false, true, false);
  }

  lemma CookedVegetablesMatch()
    ensures Matches("Légumes cuits", "Légumes")
  {
    MatchesAtStart("Légumes cuits", "Légumes", "légumes");
    Accepted("Légumes cuits", "Légumes", 'r');
  }
}
