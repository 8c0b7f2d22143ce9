/** Mature-arm resolution (`resolve_mature`), the star-sequence fallback
    chain and the precursor lookup, for one miRNA identifier. Python
    truthiness is explicit: a map entry counts as present only when its key
    is there and its sequence is not empty. */
module Resolution {
  import opened Wrappers
  import opened Strings
  import opened Identifiers

  /** A sequence map built from one FASTA file. */
  type SequenceMap = map<string, string>

  /** The "not available" sentinel of the precursor and mature columns. */
  const NotAvailable: string := "N/A"

  /** `d.get(k)`. */
  function Lookup(m: SequenceMap, k: string): Option<string>
  {
    if k in m then Some(m[k]) else None
  }

  /** Python truthiness of `d.get(k)`: the key is there with a non-empty
      sequence. */
  predicate Present(m: SequenceMap, k: string)
  {
    k in m && m[k] != ""
  }

  /** The label of a mature location in the output: `"5p"`, `"3p"`, or the
      sentinel when no arm was resolved. */
  function LocationLabel(loc: Option<Arm>): (s: string)
    ensures loc.None? <==> s == NotAvailable
    ensures loc.Some? ==> s == ArmTag(loc.value)
  {
    match loc
    case Some(a) => ArmTag(a)
    case None => NotAvailable
  }

  /** The seed as the comparison uses it: `str(seed).strip()`, or `""` for a
      missing (NaN) seed. */
  function SeedText(seed: Option<string>): string
  {
    match seed
    case Some(s) => Strip(s)
    case None => ""
  }

  /** The resolved mature sequence and its arm (`None` for "N/A"). */
  datatype Mature = Mature(sequence: string, location: Option<Arm>)

  /** Python `resolve_mature`: the arm whose entry is present, the seed
      deciding when both are; `ResolveMatureSpec` states the rule. */
  function ResolveMature(id: string, seed: Option<string>, mature: SequenceMap): Mature
  {
    var key5, key3 := ArmKey(id, FiveP), ArmKey(id, ThreeP);
    var seq5, seq3 := Lookup(mature, key5), Lookup(mature, key3);
    var has5 := seq5.Some? && seq5.value != "";
    var has3 := seq3.Some? && seq3.value != "";
    if has5 && !has3 then Mature(seq5.value, Some(FiveP))
    else if has3 && !has5 then Mature(seq3.value, Some(ThreeP))
    else if has5 && has3 then
      var s := SeedText(seed);
      if Contains(s, seq5.value) && !Contains(s, seq3.value) then Mature(seq5.value, Some(FiveP))
      else if Contains(s, seq3.value) && !Contains(s, seq5.value) then Mature(seq3.value, Some(ThreeP))
      else Mature(seq5.value, Some(FiveP))  // fallback
    else Mature(NotAvailable, None)
  }

  /** An arm is chosen exactly when one of the two arm entries is present;
      the chosen arm's entry is present and is the mature sequence; 3p is
      chosen exactly when only 3p is present, or both are and the seed
      occurs in the 3p sequence but not the 5p one; otherwise, with both
      present, 5p wins. With neither, the sequence is the sentinel. */
  lemma ResolveMatureSpec(id: string, seed: Option<string>, mature: SequenceMap)
    ensures var r := ResolveMature(id, seed, mature);
            var k5, k3 := ArmKey(id, FiveP), ArmKey(id, ThreeP);
            && (r.location.None? <==> !Present(mature, k5) && !Present(mature, k3))
            && (r.location.None? ==> r.sequence == NotAvailable)
            && (r.location.Some? ==> Present(mature, ArmKey(id, r.location.value))
                                     && r.sequence == mature[ArmKey(id, r.location.value)])
            && (r.location == Some(ThreeP)
                <==> Present(mature, k3)
                     && (!Present(mature, k5)
                         || (Contains(SeedText(seed), mature[k3]) && !Contains(SeedText(seed), mature[k5]))))
  {
  }

  /** An empty or missing seed occurs in every sequence, so with both arms
      present it never selects 3p. */
  lemma EmptySeedPicksFiveP(id: string, seed: Option<string>, mature: SequenceMap)
    requires SeedText(seed) == ""
    requires Present(mature, ArmKey(id, FiveP)) && Present(mature, ArmKey(id, ThreeP))
    ensures ResolveMature(id, seed, mature) == Mature(mature[ArmKey(id, FiveP)], Some(FiveP))
  {
    assert OccursAt("", mature[ArmKey(id, FiveP)], 0);
    assert OccursAt("", mature[ArmKey(id, ThreeP)], 0);
  }

  /** Examples: the seed `ACC` occurs only in the 5p arm of
      `m1`; `m2` has only a 5p arm; `m3` has no arm at all. */
  lemma ResolveMatureExamples()
    ensures ResolveMature("m1", Some("ACC"), map["m1_5p" := "AACCGG", "m1_3p" := "TTGGCC"])
         == Mature("AACCGG", Some(FiveP))
    ensures forall seed :: ResolveMature("m2", seed, map["m2_5p" := "AACC"]) == Mature("AACC", Some(FiveP))
    ensures forall seed :: ResolveMature("m3", seed, map[]) == Mature(NotAvailable, None)
  {
    var m1 := map["m1_5p" := "AACCGG", "m1_3p" := "TTGGCC"];
    assert ArmKey("m1", FiveP) == "m1_5p" && ArmKey("m1", ThreeP) == "m1_3p";
    StripTrimmed("ACC");
    assert OccursAt("ACC", "AACCGG", 1);
    forall i | 0 <= i <= 3 ensures !OccursAt("ACC", "TTGGCC", i) {
      assert "TTGGCC"[i..i + 3][0] != 'A';
    }
    assert ArmKey("m2", FiveP) == "m2_5p" && ArmKey("m2", ThreeP) == "m2_3p";
  }

  /** The seed fallback (the last `return` before "N/A"): with both arms
      present and a seed found in neither, 5p is chosen. */
  lemma ResolveMatureSeedInNeither()
    ensures ResolveMature("m4", Some("GGG"), map["m4_5p" := "AAAA", "m4_3p" := "UUUU"])
         == Mature("AAAA", Some(FiveP))
  {
    assert ArmKey("m4", FiveP) == "m4_5p" && ArmKey("m4", ThreeP) == "m4_3p";
    StripTrimmed("GGG");
    forall i | 0 <= i <= 1 ensures !OccursAt("GGG", "AAAA", i) && !OccursAt("GGG", "UUUU", i) {
      assert "AAAA"[i..i + 3][0] != 'G';
      assert "UUUU"[i..i + 3][0] != 'G';
    }
  }

  /** The same fallback when the seed occurs in both arms: 5p is chosen. */
  lemma ResolveMatureSeedInBoth()
    ensures ResolveMature("m5", Some("A"), map["m5_5p" := "AAGG", "m5_3p" := "UUAU"])
         == Mature("AAGG", Some(FiveP))
  {
    assert ArmKey("m5", FiveP) == "m5_5p" && ArmKey("m5", ThreeP) == "m5_3p";
    StripTrimmed("A");
    assert OccursAt("A", "AAGG", 0);
    assert OccursAt("A", "UUAU", 2);
  }

  /** The arm the star sequence is looked up under: 3p when the mature arm
      is 5p, and 5p otherwise — including when no arm was resolved. */
  function StarTarget(loc: Option<Arm>): (t: Arm)
    ensures loc.Some? ==> t != loc.value
    ensures loc.None? ==> t == FiveP
  {
    if loc == Some(FiveP) then ThreeP else FiveP
  }

  /** The three lookups of the star fallback chain, in priority order: the
      mature map under the target arm, the star map under the target arm,
      the star map under the mature location's own label. */
  function StarCandidates(id: string, loc: Option<Arm>, mature: SequenceMap, star: SequenceMap): seq<Option<string>>
  {
    var target := ArmKey(id, StarTarget(loc));
    [Lookup(mature, target), Lookup(star, target), Lookup(star, id + "_" + LocationLabel(loc))]
  }

  /** The first candidate that is present and non-empty, or `""`. */
  function FirstNonEmpty(cands: seq<Option<string>>): (r: string)
    ensures r != "" ==> exists j :: 0 <= j < |cands| && cands[j] == Some(r)
                          && forall i :: 0 <= i < j ==> cands[i].None? || cands[i].value == ""
    ensures r == "" <==> forall j :: 0 <= j < |cands| ==> cands[j].None? || cands[j].value == ""
  {
    if cands == [] then ""
    else if cands[0].Some? && cands[0].value != "" then cands[0].value
    else
      var r := FirstNonEmpty(cands[1..]);
      assert forall j :: 1 <= j < |cands| ==> cands[j] == cands[1..][j - 1];
      assert r != "" ==> exists j :: 0 <= j < |cands| && cands[j] == Some(r)
                          && forall i :: 0 <= i < j ==> cands[i].None? || cands[i].value == "" by {
        if r != "" {
          var j :| 0 <= j < |cands[1..]| && cands[1..][j] == Some(r)
                   && forall i :: 0 <= i < j ==> cands[1..][i].None? || cands[1..][i].value == "";
          assert cands[j + 1] == Some(r);
        }
      }
      r
  }

  /** The star sequence of a record whose mature location is `loc`. */
  function StarSequence(id: string, loc: Option<Arm>, mature: SequenceMap, star: SequenceMap): string
  {
    FirstNonEmpty(StarCandidates(id, loc, mature, star))
  }

  /** The fallback chain spelled out: the mature map's opposite-arm entry
      beats the star map's opposite-arm entry, which beats the star map's
      same-label entry; when all three miss the star sequence is `""`, not
      the sentinel. */
  lemma StarPriority(id: string, loc: Option<Arm>, mature: SequenceMap, star: SequenceMap)
    ensures var target := ArmKey(id, StarTarget(loc));
            var legacy := id + "_" + LocationLabel(loc);
            var s := StarSequence(id, loc, mature, star);
            && (Present(mature, target) ==> s == mature[target])
            && ((!Present(mature, target) && Present(star, target)) ==> s == star[target])
            && ((!Present(mature, target) && !Present(star, target) && Present(star, legacy))
                ==> s == star[legacy])
            && ((!Present(mature, target) && !Present(star, target) && !Present(star, legacy))
                ==> s == "")
  {
    var cs := StarCandidates(id, loc, mature, star);
    assert cs[1..] == [cs[1], cs[2]];
    assert cs[1..][1..] == [cs[2]];
    assert cs[1..][1..][1..] == [];
    assert FirstNonEmpty([cs[2]]) == if cs[2].Some? && cs[2].value != "" then cs[2].value else "";
    assert FirstNonEmpty(cs[1..])
        == if cs[1].Some? && cs[1].value != "" then cs[1].value else FirstNonEmpty([cs[2]]);
  }

  /** Example: a two-row table in which row `a` has both arms in the mature
      map and row `b` only a 3p arm, and the star map holds `b_5p`. For row
      `a` with seed `CGA`: the seed occurs only in the 3p arm, so 3p is its mature arm and its star is the 5p sequence,
      found in the mature map. */
  lemma ScenarioRowA()
    ensures var mature := map["a_5p" := "UUAG", "a_3p" := "CCGA", "b_3p" := "GGCU"];
            var star := map["b_5p" := "AAU"];
            && ResolveMature("a", Some("CGA"), mature) == Mature("CCGA", Some(ThreeP))
            && StarSequence("a", Some(ThreeP), mature, star) == "UUAG"
  {
    var mature := map["a_5p" := "UUAG", "a_3p" := "CCGA", "b_3p" := "GGCU"];
    var star := map["b_5p" := "AAU"];
    assert ArmKey("a", FiveP) == "a_5p" && ArmKey("a", ThreeP) == "a_3p";
    StripTrimmed("CGA");
    assert OccursAt("CGA", "CCGA", 1);
    forall i | 0 <= i <= 1 ensures !OccursAt("CGA", "UUAG", i) {
      assert "UUAG"[i..i + 3][0] != 'C';
    }
    StarPriority("a", Some(ThreeP), mature, star);
  }

  /** The same two-row table, row `b`: it has only a 3p mature sequence,
      and its star is the 5p sequence from the star map. */
  lemma ScenarioRowB()
    ensures var mature := map["a_5p" := "UUAG", "a_3p" := "CCGA", "b_3p" := "GGCU"];
            var star := map["b_5p" := "AAU"];
            && ResolveMature("b", Some("CGA"), mature) == Mature("GGCU", Some(ThreeP))
            && StarSequence("b", Some(ThreeP), mature, star) == "AAU"
  {
    var mature := map["a_5p" := "UUAG", "a_3p" := "CCGA", "b_3p" := "GGCU"];
    var star := map["b_5p" := "AAU"];
    assert ArmKey("b", FiveP) == "b_5p" && ArmKey("b", ThreeP) == "b_3p";
    assert "b_5p" !in mature;
    StarPriority("b", Some(ThreeP), mature, star);
  }

  /** `pre_dict.get(id, "N/A")`. */
  function Precursor(pre: SequenceMap, id: string): (s: string)
    ensures id in pre ==> s == pre[id]
    ensures id !in pre ==> s == NotAvailable
  {
    if id in pre then pre[id] else NotAvailable
  }

  /** The length column rule `len(x) if x != "N/A" and x is not None else 0`:
      the sentinel and the empty sequence both have length 0, every other
      sequence its character count. */
  function SequenceLength(x: string): (n: nat)
    ensures n == 0 <==> x == "" || x == NotAvailable
    ensures x != NotAvailable ==> n == |x|
  {
    if x != NotAvailable then |x| else 0
  }
}
