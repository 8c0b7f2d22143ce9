/** Identifier normalisation: `clean_csv_id` for table IDs and
    `clean_fasta_header` for FASTA header names, with the `_5p`/`_3p`/`_pre`
    suffix classification and the key under which a FASTA record is stored. */
module Identifiers {
  import opened Wrappers
  import opened Strings

  /** The two arms of a precursor hairpin. */
  datatype Arm = FiveP | ThreeP

  /** The arm's tag as it appears in identifiers and in the output. */
  function ArmTag(a: Arm): (t: string)
    ensures |t| == 2 && t[1] == 'p'
    ensures t == "5p" <==> a == FiveP
    ensures a == ThreeP ==> t == "3p"
  {
    match a
    case FiveP => "5p"
    case ThreeP => "3p"
  }

  /** The key of one arm of miRNA `id`: `f"{id}_{arm}"`. */
  function ArmKey(id: string, a: Arm): string
  {
    id + "_" + ArmTag(a)
  }

  // ---------------------------------------------------------------------
  // clean_csv_id

  /** Table ID clean-up: strip surrounding whitespace, then drop one
      trailing `" V"` (space, capital V) if there is one. */
  function CleanCsvId(raw: string): string
  {
    var s := Strip(raw);
    if EndsWith(s, " V") then s[..|s| - 2] else s
  }

  /** The cleaned ID is the stripped ID, when that does not end in the
      suffix, or the stripped ID minus the suffix, and nothing else. */
  lemma CleanCsvIdShape(raw: string)
    ensures var t := Strip(raw);
            var r := CleanCsvId(raw);
            (r == t && !EndsWith(t, " V")) || (r + " V" == t)
  {
    var t := Strip(raw);
    if EndsWith(t, " V") {
      assert t[..|t| - 2] + " V" == t;
    }
  }

  /** Exactly one trailing `" V"` is removed from an ID that carries it. */
  lemma CleanCsvIdDropsOneSuffix(s: string)
    requires s != [] && !IsSpace(s[0]) && !IsSpace(s[|s| - 1])
    ensures CleanCsvId(s + " V") == s
  {
    StripTrimmed(s + " V");
  }

  /** A trimmed ID without the suffix is returned unchanged. */
  lemma CleanCsvIdKeepsOthers(s: string)
    requires s != [] ==> !IsSpace(s[0]) && !IsSpace(s[|s| - 1])
    requires !EndsWith(s, " V")
    ensures CleanCsvId(s) == s
  {
    StripTrimmed(s);
  }

  /** Worked example: the suffix goes. */
  lemma CleanCsvIdExampleSuffix()
    ensures CleanCsvId("mir1 V") == "mir1"
  {
    CleanCsvIdDropsOneSuffix("mir1");
  }

  /** Worked example: the suffix goes only once. */
  lemma CleanCsvIdExampleOnce()
    ensures CleanCsvId("mir1 V V") == "mir1 V"
  {
    CleanCsvIdDropsOneSuffix("mir1 V");
    assert "mir1 V" + " V" == "mir1 V V";
  }

  /** Worked example: "VV" is not the suffix. */
  lemma CleanCsvIdExampleNoSpace()
    ensures CleanCsvId("mir1 VV") == "mir1 VV"
  {
    CleanCsvIdKeepsOthers("mir1 VV");
  }

  // ---------------------------------------------------------------------
  // The version-tag substitution re.sub(r"[-_]v\d+", "", name)

  predicate IsDigit(c: char)
  {
    '0' <= c <= '9'
  }

  /** Length of the run of digits at the front of `s` (what the greedy
      `\d+` consumes). */
  function DigitRun(s: string): (n: nat)
    ensures n <= |s|
    ensures forall k :: 0 <= k < n ==> IsDigit(s[k])
    ensures n < |s| ==> !IsDigit(s[n])
  {
    if s != [] && IsDigit(s[0]) then 1 + DigitRun(s[1..]) else 0
  }

  /** The pattern `[-_]v\d` matches at position `i` of `s`. */
  predicate TagAt(s: string, i: nat)
  {
    i + 2 < |s| && (s[i] == '-' || s[i] == '_') && s[i + 1] == 'v' && IsDigit(s[i + 2])
  }

  /** One left-to-right pass of `re.sub`: at each position where the pattern
      matches, the separator, the `v` and the whole digit run are deleted
      and the scan resumes after them; elsewhere the character is kept. */
  function StripVersionTags(s: string): (r: string)
    ensures |r| <= |s|
    ensures forall c :: c in r ==> c in s
    decreases |s|
  {
    if s == [] then []
    else if TagAt(s, 0) then StripVersionTags(s[2 + DigitRun(s[2..])..])
    else [s[0]] + StripVersionTags(s[1..])
  }

  lemma {:induction false} DigitRunOf(ds: string, y: string)
    requires forall k :: 0 <= k < |ds| ==> IsDigit(ds[k])
    requires y == [] || !IsDigit(y[0])
    ensures DigitRun(ds + y) == |ds|
  {
    if ds != [] {
      assert (ds + y)[1..] == ds[1..] + y;
      DigitRunOf(ds[1..], y);
    } else {
      assert ds + y == y;
    }
  }

  /** A version tag at the very front is deleted whole. */
  lemma TagRemovedAtFront(sep: char, ds: string, y: string)
    requires sep == '-' || sep == '_'
    requires ds != [] && forall k :: 0 <= k < |ds| ==> IsDigit(ds[k])
    requires y == [] || !IsDigit(y[0])
    ensures StripVersionTags([sep, 'v'] + ds + y) == StripVersionTags(y)
  {
    var s := [sep, 'v'] + ds + y;
    assert s == [sep, 'v'] + (ds + y);
    assert TagAt(s, 0);
    assert s[2..] == ds + y;
    DigitRunOf(ds, y);
    assert s[2 + |ds|..] == y;
  }

  /** Where the pattern matches at no position of `x`, even reading on into
      `t`, the pass keeps `x` and carries on with `t`. */
  lemma {:induction false} KeepsTagFreePrefix(x: string, t: string)
    requires forall i: nat :: i < |x| ==> !TagAt(x + t, i)
    ensures StripVersionTags(x + t) == x + StripVersionTags(t)
  {
    if x != [] {
      var s := x + t;
      assert !TagAt(s, 0);
      assert s[1..] == x[1..] + t;
      forall i: nat | i < |x[1..]| ensures !TagAt(x[1..] + t, i) {
        assert !TagAt(s, i + 1);
      }
      KeepsTagFreePrefix(x[1..], t);
      assert [x[0]] + x[1..] == x;
    } else {
      assert x + t == t;
    }
  }

  /** A name in which the pattern never matches is left as it is. */
  lemma NoTagUnchanged(s: string)
    requires forall i: nat :: i < |s| ==> !TagAt(s, i)
    ensures StripVersionTags(s) == s
  {
    assert s + [] == s;
    KeepsTagFreePrefix(s, []);
  }

  /** A version tag (`-` or `_`, then `v`, then all of a digit run) after a
      tag-free prefix is deleted whole, and the scan carries on after it. */
  lemma TagRemoved(x: string, sep: char, ds: string, y: string)
    requires forall i: nat :: i < |x| ==> !TagAt(x, i)
    requires sep == '-' || sep == '_'
    requires ds != [] && forall k :: 0 <= k < |ds| ==> IsDigit(ds[k])
    requires y == [] || !IsDigit(y[0])
    ensures StripVersionTags(x + [sep, 'v'] + ds + y) == x + StripVersionTags(y)
  {
    var t := [sep, 'v'] + ds + y;
    assert x + [sep, 'v'] + ds + y == x + t;
    forall i: nat | i < |x| ensures !TagAt(x + t, i) {
      if i + 2 < |x| {
        assert !TagAt(x, i);
      }
    }
    KeepsTagFreePrefix(x, t);
    TagRemovedAtFront(sep, ds, y);
  }

  // ---------------------------------------------------------------------
  // clean_fasta_header

  /** The header name after `strip()`, removing every `>` and `*`, and the
      version-tag substitution. */
  function CleanedName(header: string): (c: string)
    ensures '>' !in c && '*' !in c
  {
    var removed := RemoveChar(RemoveChar(Strip(header), '>'), '*');
    assert '>' !in removed && '*' !in removed;
    StripVersionTags(removed)
  }

  /** Classifies a cleaned name by its suffix: a trailing `_5p` or `_3p`
      gives that arm, a trailing `_pre` gives no arm, anything else is kept
      whole with no arm; in every case the base followed by the removed
      suffix is the name again. */
  function SplitSuffix(c: string): (r: (string, Option<Arm>))
    ensures r.1 == Some(FiveP) <==> EndsWith(c, "_5p")
    ensures r.1 == Some(ThreeP) <==> EndsWith(c, "_3p")
    ensures r.1.Some? ==> r.0 + "_" + ArmTag(r.1.value) == c
    ensures r.1 == None && EndsWith(c, "_pre") ==> r.0 + "_pre" == c
    ensures r.1 == None && !EndsWith(c, "_pre") ==> r.0 == c
    ensures forall x :: x in r.0 ==> x in c
  {
    if EndsWith(c, "_5p") then
      assert c[..|c| - 3] + "_5p" == c;
      (c[..|c| - 3], Some(FiveP))
    else if EndsWith(c, "_3p") then
      assert c[..|c| - 3] + "_3p" == c;
      (c[..|c| - 3], Some(ThreeP))
    else if EndsWith(c, "_pre") then
      assert c[..|c| - 4] + "_pre" == c;
      (c[..|c| - 4], None)
    else
      (c, None)
  }

  /** Python `clean_fasta_header`: the base identifier and arm of a FASTA
      header; the base never contains `>` or `*`. */
  function CleanFastaHeader(header: string): (r: (string, Option<Arm>))
    ensures '>' !in r.0 && '*' !in r.0
  {
    SplitSuffix(CleanedName(header))
  }

  /** The key a FASTA record is stored under: `f"{base}_{arm}"` when there
      is an arm, the base otherwise. */
  function StorageKey(base: string, arm: Option<Arm>): string
  {
    match arm
    case Some(a) => ArmKey(base, a)
    case None => base
  }

  /** The storage key of a header is its cleaned name with a trailing
      `_pre` dropped: arm records keep their `_5p`/`_3p` suffix. */
  lemma HeaderKeyIsCleanedName(header: string)
    ensures var c := CleanedName(header);
            var (base, arm) := CleanFastaHeader(header);
            StorageKey(base, arm) == if EndsWith(c, "_pre") then c[..|c| - 4] else c
  {
    var c := CleanedName(header);
    var (base, arm) := SplitSuffix(c);
    if EndsWith(c, "_pre") {
      assert base + "_pre" == c;
      assert base == c[..|c| - 4];
    }
  }

  /** Example: the header `>mir1-v2_5p`: the `>` marker goes ... */
  lemma ExampleMarkersRemoved()
    ensures RemoveChar(RemoveChar(Strip(">mir1-v2_5p"), '>'), '*') == "mir1-v2_5p"
  {
    var h := ">mir1-v2_5p";
    var name := "mir1-v2_5p";
    StripTrimmed(h);
    assert h[1..] == name;
    RemoveAbsentChar(name, '>');
    RemoveAbsentChar(name, '*');
  }

  /** ... then the version tag `-v2` ... */
  lemma ExampleTagRemoved()
    ensures StripVersionTags("mir1-v2_5p") == "mir1_5p"
  {
    assert "mir1" + ['-', 'v'] + "2" + "_5p" == "mir1-v2_5p";
    forall i: nat | i < |"mir1"| ensures !TagAt("mir1", i) { }
    TagRemoved("mir1", '-', "2", "_5p");
    forall i: nat | i < |"_5p"| ensures !TagAt("_5p", i) { }
    NoTagUnchanged("_5p");
  }

  /** ... and the `_5p` suffix is split off ... */
  lemma ExampleSuffixSplit()
    ensures SplitSuffix("mir1_5p") == ("mir1", Some(FiveP))
  {
    var c := "mir1_5p";
    assert EndsWith(c, "_5p");
    var r := SplitSuffix(c);
    assert r.1 == Some(FiveP);
    assert r.0 + "_5p" == c;
    assert r.0 == c[..4] == "mir1";
    assert r == (r.0, r.1);
  }

  /** ... so the header is the 5p arm of `mir1`, stored as `mir1_5p`. */
  lemma CleanFastaHeaderExample()
    ensures CleanFastaHeader(">mir1-v2_5p") == ("mir1", Some(FiveP))
    ensures StorageKey("mir1", Some(FiveP)) == "mir1_5p"
  {
    ExampleMarkersRemoved();
    ExampleTagRemoved();
    ExampleSuffixSplit();
  }
}
