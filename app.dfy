/**
 * The in-memory logic of the service module (app.py): the emission
 * calculator and the input check in front of it, the bubble sort that
 * ranks one day's breakdown, the start-up seeding of the eco-tip trie and
 * the lower-casing of a suggestion prefix. Floating-point values are exact
 * reals; HTTP handling and the database are not part of this model.
 */
module App {
  import opened SuggestionIndex

  // ---------------------------------------------------------------------
  // Lower-casing (ASCII letters only)

  function LowerChar(c: char): char
  {
    if 'A' <= c <= 'Z' then (c as int + 32) as char else c
  }

  predicate IsLower(s: string)
  {
    forall i | 0 <= i < |s| :: !('A' <= s[i] <= 'Z')
  }

  function Lower(s: string): (r: string)
    ensures |r| == |s| && IsLower(r)
    ensures forall i | 0 <= i < |s| :: LowerChar(r[i]) == LowerChar(s[i])
  {
    seq(|s|, i requires 0 <= i < |s| => LowerChar(s[i]))
  }

  /** A string with no upper-case letter is its own lower-case form. */
  lemma LowerOfLower(s: string)
    requires IsLower(s)
    ensures Lower(s) == s
  {
  }

  lemma LowerIdempotent(s: string)
    ensures Lower(Lower(s)) == Lower(s)
  {
    LowerOfLower(Lower(s));
  }

  // ---------------------------------------------------------------------
  // The emission calculator

  /** kgCO2 per km, by transport mode. */
  const TransportFactors: map<string, real> :=
    map["car" := 0.20, "bus" := 0.08, "train" := 0.04, "flight" := 0.35, "bike" := 0.0, "default" := 0.20]

  /** kgCO2 per kWh. */
  const EnergyFactor: real := 0.5

  /** kgCO2 per day, by diet. */
  const FoodFactors: map<string, real> :=
    map["meat" := 5.0, "dairy" := 3.0, "vegetarian" := 1.5, "vegan" := 1.0]

  datatype Breakdown = Breakdown(travelEm: real, energyEm: real, foodEm: real, totalEm: real)

  /** The per-km factor of a transport mode, matched ignoring case; any other
      mode gets the default factor. */
  function ModeFactor(transportMode: string): (f: real)
    ensures f in TransportFactors.Values && f >= 0.0
    ensures Lower(transportMode) !in TransportFactors ==> f == TransportFactors["car"]
  {
    var key := Lower(transportMode);
    if key in TransportFactors then TransportFactors[key] else TransportFactors["default"]
  }

  /** The per-day factor of a diet, matched ignoring case; any other diet
      counts as meat. */
  function FoodFactor(foodType: string): (f: real)
    ensures f in {5.0, 3.0, 1.5, 1.0}
    ensures Lower(foodType) !in FoodFactors ==> f == FoodFactors["meat"]
  {
    var key := Lower(foodType);
    if key in FoodFactors then FoodFactors[key] else FoodFactors["meat"]
  }

  function CalculateEmissions(travelKm: real, energyKwh: real, foodType: string, transportMode: string): (b: Breakdown)
    ensures b.totalEm == b.travelEm + b.energyEm + b.foodEm
    ensures b.foodEm in {5.0, 3.0, 1.5, 1.0}
  {
    var travelEm := travelKm * ModeFactor(transportMode);
    var energyEm := energyKwh * EnergyFactor;
    var foodEm := FoodFactor(foodType);
    Breakdown(travelEm, energyEm, foodEm, travelEm + energyEm + foodEm)
  }

  /** Inputs that differ only in letter case give the same breakdown. */
  lemma CaseInsensitive(travelKm: real, energyKwh: real, foodType: string, transportMode: string)
    ensures CalculateEmissions(travelKm, energyKwh, foodType, transportMode)
         == CalculateEmissions(travelKm, energyKwh, Lower(foodType), Lower(transportMode))
  {
    LowerIdempotent(foodType);
    LowerIdempotent(transportMode);
  }

  /** An unknown transport mode (the empty string included) is priced as a car. */
  lemma UnknownModeIsCar(travelKm: real, energyKwh: real, foodType: string, transportMode: string)
    requires Lower(transportMode) !in TransportFactors
    ensures CalculateEmissions(travelKm, energyKwh, foodType, transportMode)
         == CalculateEmissions(travelKm, energyKwh, foodType, "car")
  {
    LowerOfLower("car");
  }

  /** The energy part depends on the kWh alone. */
  lemma EnergyPartOnlyFromKwh(travelKm: real, energyKwh: real, foodType: string, transportMode: string)
    ensures CalculateEmissions(travelKm, energyKwh, foodType, transportMode).energyEm == energyKwh * 0.5
  {
  }

  /** Non-negative distance and energy give a non-negative breakdown. */
  lemma NonNegativeBreakdown(travelKm: real, energyKwh: real, foodType: string, transportMode: string)
    requires travelKm >= 0.0 && energyKwh >= 0.0
    ensures var b := CalculateEmissions(travelKm, energyKwh, foodType, transportMode);
      b.travelEm >= 0.0 && b.energyEm >= 0.0 && b.foodEm > 0.0 && b.totalEm > 0.0
  {
  }

  lemma CalculatorExamples()
    ensures CalculateEmissions(10.0, 0.0, "meat", "car") == Breakdown(2.0, 0.0, 5.0, 7.0)
    ensures CalculateEmissions(0.0, 0.0, "vegan", "bike") == Breakdown(0.0, 0.0, 1.0, 1.0)
    ensures CalculateEmissions(12.5, 3.0, "Dairy", "scooter") == CalculateEmissions(12.5, 3.0, "dairy", "car")
  {
    LowerOfLower("meat");
    LowerOfLower("car");
    LowerOfLower("vegan");
    LowerOfLower("bike");
    LowerOfLower("dairy");
    assert Lower("Dairy") == "dairy";
    assert Lower("scooter") == "scooter" by { LowerOfLower("scooter"); }
  }

  datatype Checked = Rejected | Accepted(breakdown: Breakdown)

  /** The footprint handler's check and calculation: negative distance or
      energy is refused before anything is computed. */
  function CheckAndCalculate(travelKm: real, energyKwh: real, foodType: string, transportMode: string): (r: Checked)
    ensures r.Accepted? <==> travelKm >= 0.0 && energyKwh >= 0.0
    ensures r.Accepted? ==>
      r.breakdown.travelEm >= 0.0 && r.breakdown.energyEm >= 0.0 && r.breakdown.foodEm > 0.0 &&
      r.breakdown.totalEm == r.breakdown.travelEm + r.breakdown.energyEm + r.breakdown.foodEm
  {
    if travelKm < 0.0 || energyKwh < 0.0 then Rejected
    else
      NonNegativeBreakdown(travelKm, energyKwh, foodType, transportMode);
      Accepted(CalculateEmissions(travelKm, energyKwh, foodType, transportMode))
  }

  // ---------------------------------------------------------------------
  // Ranking a day's breakdown

  type Activity = (string, real)

  predicate SortedDescending(s: seq<Activity>)
  {
    forall k, l | 0 <= k < l < |s| :: s[k].1 >= s[l].1
  }

  /** `perm` lists each index below `n` exactly once. */
  predicate IsPermutation(perm: seq<int>, n: int)
  {
    |perm| == n &&
    (forall k | 0 <= k < n :: 0 <= perm[k] < n) &&
    (forall k, l | 0 <= k < l < n :: perm[k] != perm[l])
  }

  /** `s` is `orig` rearranged: its element `k` is the element `perm[k]` of `orig`. */
  predicate Arranged(s: seq<Activity>, orig: seq<Activity>, perm: seq<int>)
  {
    |s| == |orig| && IsPermutation(perm, |orig|) &&
    forall k | 0 <= k < |s| :: s[k] == orig[perm[k]]
  }

  /** Elements with equal emission appear in the order of their original
      positions `perm`. */
  predicate Stable(s: seq<Activity>, perm: seq<int>)
    requires |perm| == |s|
  {
    forall k, l | 0 <= k < l < |s| && s[k].1 == s[l].1 :: perm[k] < perm[l]
  }

  function Swap<T>(s: seq<T>, j: nat): seq<T>
    requires j + 1 < |s|
  {
    s[j := s[j + 1]][j + 1 := s[j]]
  }

  // The state of a pass: the part from `m` on is sorted and holds no element
  // larger than any before `m`.

  ghost predicate TailSorted(s: seq<Activity>, m: int)
  {
    forall k, l | 0 <= k && m <= k < l < |s| :: s[k].1 >= s[l].1
  }

  ghost predicate HeadAboveTail(s: seq<Activity>, m: int)
  {
    forall k, l | 0 <= k < m <= l < |s| :: s[k].1 >= s[l].1
  }

  /** Within a pass: no element before `j` is smaller than the one at `j`. */
  ghost predicate SmallestAt(s: seq<Activity>, j: int)
    requires 0 <= j < |s|
  {
    forall k | 0 <= k < j :: s[k].1 >= s[j].1
  }

  /** Swapping two neighbours before `m`, the later strictly larger, keeps
      the state of the pass and carries the smaller one on to `j + 1`. */
  lemma SwapStep(s: seq<Activity>, j: nat, m: int)
    requires j + 1 < m <= |s| && s[j].1 < s[j + 1].1
    requires TailSorted(s, m) && HeadAboveTail(s, m) && SmallestAt(s, j)
    ensures var t := Swap(s, j);
      TailSorted(t, m) && HeadAboveTail(t, m) && SmallestAt(t, j + 1) && multiset(t) == multiset(s)
  {
    var t := Swap(s, j);
    assert forall k | 0 <= k < |s| :: t[k] == s[if k == j then j + 1 else if k == j + 1 then j else k];
  }

  /** The same swap keeps the rearrangement and, as the swapped pair differ,
      stability. */
  lemma SwapArranged(s: seq<Activity>, orig: seq<Activity>, perm: seq<int>, j: nat)
    requires j + 1 < |s| && s[j].1 != s[j + 1].1
    requires Arranged(s, orig, perm) && Stable(s, perm)
    ensures Arranged(Swap(s, j), orig, Swap(perm, j)) && Stable(Swap(s, j), Swap(perm, j))
  {
    var t, q := Swap(s, j), Swap(perm, j);
    assert forall k | 0 <= k < |s| :: t[k] == s[if k == j then j + 1 else if k == j + 1 then j else k];
    assert forall k | 0 <= k < |s| :: q[k] == perm[if k == j then j + 1 else if k == j + 1 then j else k];
  }

  /** Leaving an ordered pair alone also carries the smallest on. */
  lemma KeepStep(s: seq<Activity>, j: nat)
    requires j + 1 < |s| && s[j].1 >= s[j + 1].1 && SmallestAt(s, j)
    ensures SmallestAt(s, j + 1)
  {
  }

  /** At the end of a pass the smallest of the head has reached its end. */
  lemma PassDone(s: seq<Activity>, m: nat)
    requires 0 < m <= |s| && TailSorted(s, m) && HeadAboveTail(s, m) && SmallestAt(s, m - 1)
    ensures TailSorted(s, m - 1) && HeadAboveTail(s, m - 1)
  {
  }

  /** Exchanges the neighbours at `j` and `j + 1`. */
  method SwapAt(activities: array<Activity>, j: nat)
    requires j + 1 < activities.Length
    modifies activities
    ensures activities[..] == Swap(old(activities[..]), j)
  {
    activities[j], activities[j + 1] := activities[j + 1], activities[j];
  }

  /** Sorts `activities` in place by emission, largest first, swapping
      neighbours only when the later one is strictly larger. `perm` says
      where each final element came from. */
  method BubbleSort(activities: array<Activity>) returns (ghost perm: seq<int>)
    modifies activities
    ensures SortedDescending(activities[..])
    ensures multiset(activities[..]) == multiset(old(activities[..]))
    ensures Arranged(activities[..], old(activities[..]), perm)
    ensures Stable(activities[..], perm)
  {
    ghost var orig := activities[..];
    var n := activities.Length;
    perm := seq(n, k => k);
    var i := 0;
    while i < n - 1
      invariant 0 <= i && (n > 0 ==> i <= n - 1)
      invariant TailSorted(activities[..], n - i) && HeadAboveTail(activities[..], n - i)
      invariant multiset(activities[..]) == multiset(orig)
      invariant Arranged(activities[..], orig, perm) && Stable(activities[..], perm)
    {
      perm := BubblePass(activities, n - i, orig, perm);
      i := i + 1;
    }
  }

  /** One pass of the outer loop: walks the first `m` elements, swapping
      each neighbour pair whose later element is strictly larger, so that
      the smallest of them ends at `m - 1`. */
  method BubblePass(activities: array<Activity>, m: int, ghost orig: seq<Activity>, ghost perm: seq<int>)
    returns (ghost perm': seq<int>)
    requires 1 < m <= activities.Length
    requires TailSorted(activities[..], m) && HeadAboveTail(activities[..], m)
    requires Arranged(activities[..], orig, perm) && Stable(activities[..], perm)
    modifies activities
    ensures TailSorted(activities[..], m - 1) && HeadAboveTail(activities[..], m - 1)
    ensures multiset(activities[..]) == multiset(old(activities[..]))
    ensures Arranged(activities[..], orig, perm') && Stable(activities[..], perm')
  {
    perm' := perm;
    var j := 0;
    while j < m - 1
      invariant 0 <= j <= m - 1
      invariant SmallestAt(activities[..], j)
      invariant TailSorted(activities[..], m) && HeadAboveTail(activities[..], m)
      invariant multiset(activities[..]) == multiset(old(activities[..]))
      invariant Arranged(activities[..], orig, perm') && Stable(activities[..], perm')
    {
      ghost var s := activities[..];
      if activities[j].1 < activities[j + 1].1 {
        SwapStep(s, j, m);
        SwapArranged(s, orig, perm', j);
        SwapAt(activities, j);
        perm' := Swap(perm', j);
      } else {
        KeepStep(s, j);
      }
      j := j + 1;
    }
    PassDone(activities[..], m);
  }

  /** Where each label stands in the handler's list: Travel, Energy, Food. */
  function LabelOrder(name: string): int
  {
    if name == "Travel" then 0 else if name == "Energy" then 1 else 2
  }

  /** The handler's list for one day, before ranking. */
  function Parts(travelEm: real, energyEm: real, foodEm: real): (parts: seq<Activity>)
    ensures |parts| == 3 && forall m | 0 <= m < 3 :: LabelOrder(parts[m].0) == m
  {
    [("Travel", travelEm), ("Energy", energyEm), ("Food", foodEm)]
  }

  /** A rearrangement of the three parts carries each label's place along,
      so ties keep the order Travel, Energy, Food and no label repeats. */
  lemma ArrangedParts(parts: seq<Activity>, ranked: seq<Activity>, perm: seq<int>)
    requires |parts| == 3 && forall m | 0 <= m < 3 :: LabelOrder(parts[m].0) == m
    requires Arranged(ranked, parts, perm) && Stable(ranked, perm)
    ensures forall k | 0 <= k < 3 :: ranked[k] in parts && LabelOrder(ranked[k].0) == perm[k]
    ensures forall k, l | 0 <= k < l < 3 :: ranked[k].0 != ranked[l].0
    ensures forall k, l | 0 <= k < l < 3 && ranked[k].1 == ranked[l].1 :: LabelOrder(ranked[k].0) < LabelOrder(ranked[l].0)
  {
    forall k | 0 <= k < 3 ensures ranked[k] in parts && LabelOrder(ranked[k].0) == perm[k] {
      assert ranked[k] == parts[perm[k]];
    }
  }

  /** The impact ranking of one day: the three parts, largest first, ties
      kept in the order Travel, Energy, Food. */
  method Rank(travelEm: real, energyEm: real, foodEm: real) returns (ranked: seq<Activity>)
    ensures |ranked| == 3 && SortedDescending(ranked)
    ensures multiset(ranked) == multiset(Parts(travelEm, energyEm, foodEm))
    ensures forall k | 0 <= k < 3 :: ranked[k] in Parts(travelEm, energyEm, foodEm)
    ensures forall k, l | 0 <= k < l < 3 :: ranked[k].0 != ranked[l].0
    ensures forall k, l | 0 <= k < l < 3 && ranked[k].1 == ranked[l].1 :: LabelOrder(ranked[k].0) < LabelOrder(ranked[l].0)
  {
    var parts := Parts(travelEm, energyEm, foodEm);
    var activities := new Activity[3](i requires 0 <= i < 3 => parts[i]);
    assert activities[..] == parts;
    ghost var perm := BubbleSort(activities);
    ranked := activities[..];
    ArrangedParts(parts, ranked, perm);
  }

  method RankExamples() returns (distinct: seq<Activity>, tied: seq<Activity>)
    ensures distinct == [("Food", 9.0), ("Travel", 5.0), ("Energy", 2.0)]
    ensures tied == [("Travel", 3.0), ("Energy", 3.0), ("Food", 1.0)]
  {
    distinct := Rank(5.0, 2.0, 9.0);
    tied := Rank(3.0, 3.0, 1.0);
  }

  // ---------------------------------------------------------------------
  // The eco-tip trie and the suggestion lookup

  type Row = (string, seq<string>)

  /** The transport tips, in insertion order. */
  const TransportTips: seq<Row> := [
    ("car", ["Take public transit or carpool!", "Work from home if possible.", "Consider an electric vehicle."]),
    ("bike", ["Use a bicycle for short trips.", "Combine errands to reduce trips."]),
    ("plane", ["Offset your flight's carbon footprint.", "Choose direct flights to reduce emissions."])
  ]

  /** The food tips, in insertion order. */
  const FoodTips: seq<Row> := [
    ("lamb", ["Try a plant-based meal.", "Reduce portion sizes of red meat,", "Switch to chicken or fish."]),
    ("dairy", ["Use plant-based milk alternatives.", "Buy local dairy products to reduce transport emissions."]),
    ("packaged_food", ["Buy fresh, local produce.", "Avoid single-use packaging."])
  ]

  /** The energy tips, in insertion order. */
  const EnergyTips: seq<Row> := [
    ("lights", ["Switch to LED bulbs.", "Turn off lights when not in use."]),
    ("ac", ["Set AC to a higher temperature.", "Use fans or natural ventilation."])
  ]

  /** The waste tips, in insertion order. */
  const WasteTips: seq<Row> := [
    ("plastic_bags", ["Use reusable bags.", "Recycle or compost when possible."]),
    ("single_use_straws", ["Switch to metal or bamboo straws."]),
    ("bottles", ["Use reusable water bottles.", "Recycle plastic bottles."])
  ]

  /** The water tips, in insertion order. */
  const WaterTips: seq<Row> := [
    ("shower", ["Take shorter showers.", "Install water-efficient fittings."]),
    ("tap", ["Turn off the tap while brushing or washing dishes."])
  ]

  /** Every key and list seeded at start-up, in insertion order. */
  const EcoTips: seq<Row> := TransportTips + FoodTips + EnergyTips + WasteTips + WaterTips

  /** Where each group sits in the table. */
  lemma EcoTipsGroups()
    ensures |EcoTips| == 13
    ensures EcoTips[0..3] == TransportTips && EcoTips[3..6] == FoodTips && EcoTips[6..8] == EnergyTips
    ensures EcoTips[8..11] == WasteTips && EcoTips[11..13] == WaterTips
  {
  }

  /** Builds the process-wide eco-tip trie: a fresh trie, then the inserts
      group by group, in the order of the table. */
  method SeedEcoTrie() returns (ecoTrie: Trie)
    ensures ecoTrie.Valid() && fresh(ecoTrie.Repr)
    ensures ecoTrie.Contents() == Build(EcoTips)
  {
    ecoTrie := new Trie();
    EcoTipsGroups();
    assert EcoTips[..0] == [];
    SeedTransport(ecoTrie, EcoTips, 0);
    assert fresh(ecoTrie.Repr);
    SeedFood(ecoTrie, EcoTips, 3);
    assert fresh(ecoTrie.Repr);
    SeedEnergy(ecoTrie, EcoTips, 6);
    assert fresh(ecoTrie.Repr);
    SeedWaste(ecoTrie, EcoTips, 8);
    assert fresh(ecoTrie.Repr);
    SeedWater(ecoTrie, EcoTips, 11);
    assert fresh(ecoTrie.Repr);
    assert EcoTips[..13] == EcoTips;
  }

  /** Inserts row `k` of `table` into a trie that holds the rows before it. */
  method InsertRow(ecoTrie: Trie, ghost table: seq<Row>, ghost k: nat, key: string, tips: seq<string>)
    requires k < |table| && table[k] == (key, tips)
    requires ecoTrie.Valid() && ecoTrie.Contents() == Build(table[..k])
    modifies ecoTrie.Repr
    ensures ecoTrie.Valid() && fresh(ecoTrie.Repr - old(ecoTrie.Repr))
    ensures ecoTrie.Contents() == Build(table[..k + 1])
  {
    ecoTrie.Insert(key, tips);
    ReplayStep(EmptyView, table, k);
  }

  /** The transport tips, which sit at `a` in `table`. */
  method SeedTransport(ecoTrie: Trie, ghost table: seq<Row>, ghost a: nat)
    requires a + 3 <= |table| && table[a..a + 3] == TransportTips
    requires ecoTrie.Valid() && ecoTrie.Contents() == Build(table[..a])
    modifies ecoTrie.Repr
    ensures ecoTrie.Valid() && fresh(ecoTrie.Repr - old(ecoTrie.Repr))
    ensures ecoTrie.Contents() == Build(table[..a + 3])
  {
    InsertRow(ecoTrie, table, a, "car", [
      "Take public transit or carpool!",
      "Work from home if possible.",
      "Consider an electric vehicle."
    ]);
    assert fresh(ecoTrie.Repr - old(ecoTrie.Repr));
    InsertRow(ecoTrie, table, a + 1, "bike", [
      "Use a bicycle for short trips.",
      "Combine errands to reduce trips."
    ]);
    assert fresh(ecoTrie.Repr - old(ecoTrie.Repr));
    InsertRow(ecoTrie, table, a + 2, "plane", [
      "Offset your flight's carbon footprint.",
      "Choose direct flights to reduce emissions."
    ]);
    assert fresh(ecoTrie.Repr - old(ecoTrie.Repr));
  }

  /** The food tips, which sit at `a` in `table`. */
  method SeedFood(ecoTrie: Trie, ghost table: seq<Row>, ghost a: nat)
    requires a + 3 <= |table| && table[a..a + 3] == FoodTips
    requires ecoTrie.Valid() && ecoTrie.Contents() == Build(table[..a])
    modifies ecoTrie.Repr
    ensures ecoTrie.Valid() && fresh(ecoTrie.Repr - old(ecoTrie.Repr))
    ensures ecoTrie.Contents() == Build(table[..a + 3])
  {
    InsertRow(ecoTrie, table, a, "lamb", [
      "Try a plant-based meal.",
      "Reduce portion sizes of red meat,",
      "Switch to chicken or fish."
    ]);
    assert fresh(ecoTrie.Repr - old(ecoTrie.Repr));
    InsertRow(ecoTrie, table, a + 1, "dairy", [
      "Use plant-based milk alternatives.",
      "Buy local dairy products to reduce transport emissions."
    ]);
    assert fresh(ecoTrie.Repr - old(ecoTrie.Repr));
    InsertRow(ecoTrie, table, a + 2, "packaged_food", [
      "Buy fresh, local produce.",
      "Avoid single-use packaging."
    ]);
    assert fresh(ecoTrie.Repr - old(ecoTrie.Repr));
  }

  /** The energy tips, which sit at `a` in `table`. */
  method SeedEnergy(ecoTrie: Trie, ghost table: seq<Row>, ghost a: nat)
    requires a + 2 <= |table| && table[a..a + 2] == EnergyTips
    requires ecoTrie.Valid() && ecoTrie.Contents() == Build(table[..a])
    modifies ecoTrie.Repr
    ensures ecoTrie.Valid() && fresh(ecoTrie.Repr - old(ecoTrie.Repr))
    ensures ecoTrie.Contents() == Build(table[..a + 2])
  {
    InsertRow(ecoTrie, table, a, "lights", [
      "Switch to LED bulbs.",
      "Turn off lights when not in use."
    ]);
    assert fresh(ecoTrie.Repr - old(ecoTrie.Repr));
    InsertRow(ecoTrie, table, a + 1, "ac", [
      "Set AC to a higher temperature.",
      "Use fans or natural ventilation."
    ]);
    assert fresh(ecoTrie.Repr - old(ecoTrie.Repr));
  }

  /** The waste tips, which sit at `a` in `table`. */
  method SeedWaste(ecoTrie: Trie, ghost table: seq<Row>, ghost a: nat)
    requires a + 3 <= |table| && table[a..a + 3] == WasteTips
    requires ecoTrie.Valid() && ecoTrie.Contents() == Build(table[..a])
    modifies ecoTrie.Repr
    ensures ecoTrie.Valid() && fresh(ecoTrie.Repr - old(ecoTrie.Repr))
    ensures ecoTrie.Contents() == Build(table[..a + 3])
  {
    InsertRow(ecoTrie, table, a, "plastic_bags", [
      "Use reusable bags.",
      "Recycle or compost when possible."
    ]);
    assert fresh(ecoTrie.Repr - old(ecoTrie.Repr));
    InsertRow(ecoTrie, table, a + 1, "single_use_straws", [
      "Switch to metal or bamboo straws."
    ]);
    assert fresh(ecoTrie.Repr - old(ecoTrie.Repr));
    InsertRow(ecoTrie, table, a + 2, "bottles", [
      "Use reusable water bottles.",
      "Recycle plastic bottles."
    ]);
    assert fresh(ecoTrie.Repr - old(ecoTrie.Repr));
  }

  /** The water tips, which sit at `a` in `table`. */
  method SeedWater(ecoTrie: Trie, ghost table: seq<Row>, ghost a: nat)
    requires a + 2 <= |table| && table[a..a + 2] == WaterTips
    requires ecoTrie.Valid() && ecoTrie.Contents() == Build(table[..a])
    modifies ecoTrie.Repr
    ensures ecoTrie.Valid() && fresh(ecoTrie.Repr - old(ecoTrie.Repr))
    ensures ecoTrie.Contents() == Build(table[..a + 2])
  {
    InsertRow(ecoTrie, table, a, "shower", [
      "Take shorter showers.",
      "Install water-efficient fittings."
    ]);
    assert fresh(ecoTrie.Repr - old(ecoTrie.Repr));
    InsertRow(ecoTrie, table, a + 1, "tap", [
      "Turn off the tap while brushing or washing dishes."
    ]);
    assert fresh(ecoTrie.Repr - old(ecoTrie.Repr));
  }

  /** Which keys the seeding inserts after the first one, and which it never inserts. */
  lemma EcoTipsKeys()
    ensures EcoTips[0].0 == "car"
    ensures forall j | 0 < j < |EcoTips| :: EcoTips[j].0 != "car"
    ensures forall j | 0 <= j < |EcoTips| :: EcoTips[j].0 != "ca" && EcoTips[j].0 != "zzz"
  {
  }

  lemma EcoTipsLookups()
    ensures Lookup(Build(EcoTips), "car") ==
      ["Take public transit or carpool!", "Work from home if possible.", "Consider an electric vehicle."]
    ensures Lookup(Build(EcoTips), "ca") == []
    ensures Lookup(Build(EcoTips), "zzz") == []
  {
    EcoTipsKeys();
    LookupBuild(EcoTips, "car");
    LastForAt(EcoTips, "car", 0);
    LookupBuild(EcoTips, "ca");
    LastForNever(EcoTips, "ca");
    LookupBuild(EcoTips, "zzz");
    LastForNever(EcoTips, "zzz");
  }

  /** The suggestion handler's lookup: the prefix is lower-cased first. */
  method Suggest(ecoTrie: Trie, prefix: string) returns (recommendations: seq<string>)
    requires ecoTrie.Valid()
    ensures recommendations == Lookup(ecoTrie.Contents(), Lower(prefix))
  {
    recommendations := ecoTrie.Search(Lower(prefix));
  }

  /** The seeded trie answers the suggestion handler whatever the case of
      the prefix: the three car tips for "Car", nothing for the bare prefix
      "CA" and nothing for an unknown key. */
  method SuggestExamples() returns (car: seq<string>, ca: seq<string>, zzz: seq<string>)
    ensures car == ["Take public transit or carpool!", "Work from home if possible.", "Consider an electric vehicle."]
    ensures ca == [] && zzz == []
  {
    var ecoTrie := SeedEcoTrie();
    EcoTipsLookups();
    assert Lower("Car") == "car" && Lower("CA") == "ca" && Lower("zZz") == "zzz";
    car := Suggest(ecoTrie, "Car");
    ca := Suggest(ecoTrie, "CA");
    zzz := Suggest(ecoTrie, "zZz");
  }
}
