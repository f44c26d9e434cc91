/**
 * The side-effect-free part of the tracker: deciding from a client's brand
 * and mod list whether it is a Fabric client (which gets the legacy particle
 * encoding), and normalising a reported mod list before it is stored.
 */
module Classifier {
  import opened Wrappers
  import opened JavaStrings

  const Nul: char := '\0'
  const Fabric: string := "fabric"
  const FabricLoader: string := "fabricloader"

  /** The marker holds no NUL and no character at or below U+0020. */
  lemma FabricChars()
    ensures Fabric != []
    ensures forall j :: 0 <= j < |Fabric| ==> Fabric[j] > ' ' && Fabric[j] != Nul
  {
  }

  // ---------------------------------------------------------------------
  // brandIndicatesFabric

  /** One NUL-separated brand fragment, trimmed and lower-cased, mentions Fabric. */
  predicate FragmentIndicatesFabric(fragment: string)
  {
    var normalized := Lower(Trim(TrimSpace, fragment));
    normalized != [] && Contains(normalized, Fabric)
  }

  /** The fragment loop of brandIndicatesFabric: some fragment mentions Fabric. */
  predicate AnyFragmentIndicatesFabric(fragments: seq<string>)
  {
    fragments != [] && (FragmentIndicatesFabric(fragments[0]) || AnyFragmentIndicatesFabric(fragments[1..]))
  }

  /** ClientInfo.brandIndicatesFabric: a null or blank brand never does. */
  predicate BrandIndicatesFabric(brand: Option<string>)
  {
    match brand
    case None => false
    case Some(b) =>
      var sanitized := Trim(TrimSpace, b);
      sanitized != [] && AnyFragmentIndicatesFabric(Split(sanitized, Nul))
  }

  /** Trimming a fragment and skipping it when blank does not change whether it mentions Fabric. */
  lemma FragmentIndicatesFabricIff(fragment: string)
    ensures FragmentIndicatesFabric(fragment) <==> Contains(Lower(fragment), Fabric)
  {
    FabricChars();
    LowerTrimContains(TrimSpace, fragment, Fabric);
  }

  /** The fragment loop looks at the first fragment, then at the rest. */
  lemma AnyFragmentCons(head: string, rest: seq<string>)
    ensures AnyFragmentIndicatesFabric([head] + rest) <==>
              FragmentIndicatesFabric(head) || AnyFragmentIndicatesFabric(rest)
  {
    assert ([head] + rest)[0] == head;
    assert ([head] + rest)[1..] == rest;
  }

  /** The fragment loop over a split: the fragment before the first NUL, then the fragments after it. */
  lemma SplitFragmentsStep(s: string, i: nat)
    requires i == IndexOf(s, Nul) < |s|
    ensures AnyFragmentIndicatesFabric(Split(s, Nul)) <==>
              FragmentIndicatesFabric(s[..i]) || AnyFragmentIndicatesFabric(Split(s[i + 1..], Nul))
  {
    assert Split(s, Nul) == [s[..i]] + Split(s[i + 1..], Nul);
    AnyFragmentCons(s[..i], Split(s[i + 1..], Nul));
  }

  /** A brand without NUL is a single fragment. */
  lemma SplitWithoutNul(s: string)
    requires IndexOf(s, Nul) == |s|
    ensures AnyFragmentIndicatesFabric(Split(s, Nul)) <==> Contains(Lower(s), Fabric)
  {
    AnyFragmentCons(s, []);
    FragmentIndicatesFabricIff(s);
  }

  /** The search for "fabric" in `s`, split at a NUL. */
  lemma ContainsStep(s: string, i: nat)
    requires i < |s| && s[i] == Nul
    ensures Contains(Lower(s), Fabric) <==> Contains(Lower(s[..i]), Fabric) || Contains(Lower(s[i + 1..]), Fabric)
  {
    SplitAround(s, i);
    FabricAcrossNul(s[..i], s[i + 1..]);
  }

  /**
   * The inductive step: if the fragments after the first NUL mention Fabric
   * exactly when that rest of the brand does, the same holds for the whole brand.
   */
  lemma SplitAtNul(s: string, i: nat)
    requires i == IndexOf(s, Nul) < |s|
    requires AnyFragmentIndicatesFabric(Split(s[i + 1..], Nul)) <==> Contains(Lower(s[i + 1..]), Fabric)
    ensures AnyFragmentIndicatesFabric(Split(s, Nul)) <==> Contains(Lower(s), Fabric)
  {
    FragmentIndicatesFabricIff(s[..i]);
    SplitFragmentsStep(s, i);
    ContainsStep(s, i);
  }

  /** Some NUL-separated fragment of `s` mentions Fabric exactly when `s` does. */
  lemma {:induction false} SplitIndicatesFabricIff(s: string)
    ensures AnyFragmentIndicatesFabric(Split(s, Nul)) <==> Contains(Lower(s), Fabric)
    decreases |s|
  {
    var i := IndexOf(s, Nul);
    if i == |s| {
      SplitWithoutNul(s);
    } else {
      SplitIndicatesFabricIff(s[i + 1..]);
      SplitAtNul(s, i);
    }
  }

  /** An occurrence of "fabric" never spans a NUL. */
  lemma FabricAcrossNul(head: string, tail: string)
    ensures Contains(Lower(head + [Nul] + tail), Fabric) <==>
              Contains(Lower(head), Fabric) || Contains(Lower(tail), Fabric)
  {
    LowerAppend(head, [Nul]);
    LowerAppend(head + [Nul], tail);
    assert Lower([Nul]) == [Nul];
    FabricChars();
    ContainsAcrossSeparator(Lower(head), Nul, Lower(tail), Fabric);
  }

  /**
   * With ASCII case mapping, brandIndicatesFabric is a plain case-insensitive
   * substring search: neither the outer trim, nor the split on NUL, nor the
   * per-fragment trim can create or destroy an occurrence of "fabric".
   */
  lemma BrandIndicatesFabricIff(brand: Option<string>)
    ensures BrandIndicatesFabric(brand) <==> brand.Some? && Contains(Lower(brand.value), Fabric)
  {
    if brand.Some? {
      var b := brand.value;
      var sanitized := Trim(TrimSpace, b);
      FabricChars();
      LowerTrimContains(TrimSpace, b, Fabric);
      SplitIndicatesFabricIff(sanitized);
    }
  }

  // ---------------------------------------------------------------------
  // modsIndicateFabric

  /** The substring loop of modsIndicateFabric. */
  predicate AnyModMentionsFabric(mods: seq<string>)
  {
    mods != [] && (Contains(mods[0], Fabric) || AnyModMentionsFabric(mods[1..]))
  }

  /** ClientInfo.modsIndicateFabric over the stored set (kept as a duplicate-free sequence). */
  predicate ModsIndicateFabric(mods: Option<seq<string>>)
  {
    match mods
    case None => false
    case Some(m) => m != [] && (FabricLoader in m || AnyModMentionsFabric(m))
  }

  lemma {:induction false} AnyModMentionsFabricIff(mods: seq<string>)
    ensures AnyModMentionsFabric(mods) <==> exists k :: 0 <= k < |mods| && Contains(mods[k], Fabric)
  {
    if mods != [] {
      AnyModMentionsFabricIff(mods[1..]);
      if exists k :: 0 <= k < |mods| && Contains(mods[k], Fabric) {
        var k :| 0 <= k < |mods| && Contains(mods[k], Fabric);
        if k > 0 {
          assert mods[1..][k - 1] == mods[k];
        }
      }
    }
  }

  /**
   * The exact "fabricloader" test is subsumed by the substring loop:
   * the mods indicate Fabric exactly when some mod contains "fabric".
   */
  lemma ModsIndicateFabricIff(mods: Option<seq<string>>)
    ensures ModsIndicateFabric(mods) <==>
              mods.Some? && exists k :: 0 <= k < |mods.value| && Contains(mods.value[k], Fabric)
  {
    if mods.Some? {
      var m := mods.value;
      AnyModMentionsFabricIff(m);
      if FabricLoader in m {
        var k :| 0 <= k < |m| && m[k] == FabricLoader;
        assert MatchAt(FabricLoader, Fabric, 0);
        assert Contains(m[k], Fabric);
      }
    }
  }

  // ---------------------------------------------------------------------
  // computeLegacyDecision

  /** ClientInfo.computeLegacyDecision over the two stored fields. */
  predicate ComputeLegacyDecision(brand: Option<string>, mods: Option<seq<string>>)
  {
    BrandIndicatesFabric(brand) || ModsIndicateFabric(mods)
  }

  /**
   * The legacy particle encoding is used exactly when the brand or some mod,
   * lower-cased, mentions "fabric".
   */
  lemma ComputeLegacyDecisionIff(brand: Option<string>, mods: Option<seq<string>>)
    ensures ComputeLegacyDecision(brand, mods) <==>
              || (brand.Some? && Contains(Lower(brand.value), Fabric))
              || (mods.Some? && exists k :: 0 <= k < |mods.value| && Contains(mods.value[k], Fabric))
  {
    BrandIndicatesFabricIff(brand);
    ModsIndicateFabricIff(mods);
  }

  /**
   * setBrand stores the stripped brand; the decision it later gives is the one
   * the raw brand would give, since stripping cannot create or destroy an
   * occurrence of "fabric".
   */
  lemma StrippedBrandDecision(b: string, mods: Option<seq<string>>)
    ensures ComputeLegacyDecision(Some(Trim(StripSpace, b)), mods) <==>
              Contains(Lower(b), Fabric) || ModsIndicateFabric(mods)
  {
    FabricChars();
    LowerTrimContains(StripSpace, b, Fabric);
    BrandIndicatesFabricIff(Some(Trim(StripSpace, b)));
  }

  // ---------------------------------------------------------------------
  // Mod-list normalisation (ClientInfo.setClientMods)

  /** One reported mod: None when it is null or blank, else trimmed and lower-cased. */
  function NormalizeMod(mod: Option<string>): Option<string>
  {
    match mod
    case None => None
    case Some(m) =>
      var trimmed := Trim(TrimSpace, m);
      if trimmed == [] then None else Some(Lower(trimmed))
  }

  /** Every reported mod, normalised, position by position. */
  function NormalizeEach(mods: seq<Option<string>>): seq<Option<string>>
  {
    seq(|mods|, k requires 0 <= k < |mods| => NormalizeMod(mods[k]))
  }

  /** LinkedHashSet.add, where None stands for a mod that is skipped. */
  function Insert(acc: seq<string>, n: Option<string>): seq<string>
  {
    match n
    case None => acc
    case Some(x) => if x in acc then acc else acc + [x]
  }

  /**
   * Insertion into a LinkedHashSet, one value after another: the present
   * values in first-seen order, each kept once.
   */
  function Dedup(ns: seq<Option<string>>): seq<string>
    decreases |ns|
  {
    if ns == [] then [] else Insert(Dedup(ns[..|ns| - 1]), ns[|ns| - 1])
  }

  /** The LinkedHashSet that setClientMods fills from the reported mods. */
  function CollectMods(mods: seq<Option<string>>): seq<string>
  {
    Dedup(NormalizeEach(mods))
  }

  /** setClientMods: a null, empty or all-blank report leaves no mods recorded. */
  function NormalizeMods(mods: Option<seq<Option<string>>>): Option<seq<string>>
  {
    if mods.None? || mods.value == [] then None
    else
      var collected := CollectMods(mods.value);
      if collected == [] then None else Some(collected)
  }

  /** No two positions of a sequence hold the same element. */
  predicate Distinct(s: seq<string>)
  {
    forall j, k :: 0 <= j < k < |s| ==> s[j] != s[k]
  }

  /** Normalisation is position by position, so it distributes over concatenation. */
  lemma NormalizeEachAppend(mods: seq<Option<string>>, more: seq<Option<string>>)
    ensures NormalizeEach(mods + more) == NormalizeEach(mods) + NormalizeEach(more)
  {
    assert forall k :: 0 <= k < |mods| ==> (mods + more)[k] == mods[k];
    assert forall k :: |mods| <= k < |mods| + |more| ==> (mods + more)[k] == more[k - |mods|];
  }

  /** One more reported mod: its normalised form is added unless absent or already there. */
  lemma CollectModsStep(mods: seq<Option<string>>, i: nat)
    requires i < |mods|
    ensures CollectMods(mods[..i + 1]) == Insert(CollectMods(mods[..i]), NormalizeMod(mods[i]))
  {
    assert mods[..i + 1] == mods[..i] + [mods[i]];
    NormalizeEachAppend(mods[..i], [mods[i]]);
    var ns := NormalizeEach(mods[..i + 1]);
    assert ns[..|ns| - 1] == NormalizeEach(mods[..i]);
  }

  /** Exactly the present values are kept. */
  lemma {:induction false} DedupMembers(ns: seq<Option<string>>, x: string)
    ensures x in Dedup(ns) <==> Some(x) in ns
    decreases |ns|
  {
    if ns != [] {
      var init := ns[..|ns| - 1];
      DedupMembers(init, x);
      assert ns == init + [ns[|ns| - 1]];
    }
  }

  /** Each value is kept once. */
  lemma {:induction false} DedupDistinct(ns: seq<Option<string>>)
    ensures Distinct(Dedup(ns))
    decreases |ns|
  {
    if ns != [] {
      DedupDistinct(ns[..|ns| - 1]);
    }
  }

  /** Inserting more values only appends to what the earlier ones left. */
  lemma {:induction false} DedupPrefix(ns: seq<Option<string>>, more: seq<Option<string>>)
    ensures Dedup(ns) <= Dedup(ns + more)
    decreases |more|
  {
    if more == [] {
      assert ns + more == ns;
    } else {
      var init := more[..|more| - 1];
      DedupPrefix(ns, init);
      assert (ns + more)[..|ns + more| - 1] == ns + init;
    }
  }

  /** Exactly the normalised forms of the reported non-blank mods are collected. */
  lemma CollectModsMembers(mods: seq<Option<string>>, x: string)
    ensures x in CollectMods(mods) <==> exists k :: 0 <= k < |mods| && NormalizeMod(mods[k]) == Some(x)
  {
    var ns := NormalizeEach(mods);
    DedupMembers(ns, x);
    if Some(x) in ns {
      var k :| 0 <= k < |ns| && ns[k] == Some(x);
      assert NormalizeMod(mods[k]) == Some(x);
    }
    if exists k :: 0 <= k < |mods| && NormalizeMod(mods[k]) == Some(x) {
      var k :| 0 <= k < |mods| && NormalizeMod(mods[k]) == Some(x);
      assert ns[k] == Some(x);
    }
  }

  /** Each mod is collected once. */
  lemma CollectModsDistinct(mods: seq<Option<string>>)
    ensures Distinct(CollectMods(mods))
  {
    DedupDistinct(NormalizeEach(mods));
  }

  /**
   * First-seen order: reporting more mods only appends to what the earlier
   * ones collected.
   */
  lemma CollectModsPrefix(mods: seq<Option<string>>, more: seq<Option<string>>)
    ensures CollectMods(mods) <= CollectMods(mods + more)
  {
    NormalizeEachAppend(mods, more);
    DedupPrefix(NormalizeEach(mods), NormalizeEach(more));
  }

  /** A stored mod: non-blank, trimmed and lower-case. */
  predicate WellFormedMod(m: string)
  {
    m != [] && Trim(TrimSpace, m) == m && Lower(m) == m
  }

  /** A stored mod set: non-empty, duplicate-free, every element well formed. */
  predicate WellFormedMods(ms: seq<string>)
  {
    ms != [] && Distinct(ms) && forall k :: 0 <= k < |ms| ==> WellFormedMod(ms[k])
  }

  lemma NormalizeModWellFormed(mod: Option<string>)
    ensures NormalizeMod(mod).Some? ==> WellFormedMod(NormalizeMod(mod).value)
  {
    if NormalizeMod(mod).Some? {
      var t := Trim(TrimSpace, mod.value);
      var n := Lower(t);
      LowerTwice(t);
      assert !IsSpace(TrimSpace, n[0]) && !IsSpace(TrimSpace, n[|n| - 1]);
      TrimOfTrimmed(TrimSpace, n);
    }
  }

  /** Whatever setClientMods stores satisfies the stored-mods invariant. */
  lemma NormalizeModsWellFormed(mods: Option<seq<Option<string>>>)
    ensures NormalizeMods(mods).Some? ==> WellFormedMods(NormalizeMods(mods).value)
  {
    if NormalizeMods(mods).Some? {
      var ms := NormalizeMods(mods).value;
      CollectModsDistinct(mods.value);
      forall k | 0 <= k < |ms|
        ensures WellFormedMod(ms[k])
      {
        CollectModsMembers(mods.value, ms[k]);
        var j :| 0 <= j < |mods.value| && NormalizeMod(mods.value[j]) == Some(ms[k]);
        NormalizeModWellFormed(mods.value[j]);
      }
    }
  }

  /** Normalising one mod keeps it mentioning Fabric, and drops it only when it does not. */
  lemma NormalizedModMentionsFabric(mod: Option<string>)
    ensures NormalizeMod(mod).Some? && Contains(NormalizeMod(mod).value, Fabric) <==>
              mod.Some? && Contains(Lower(mod.value), Fabric)
  {
    if mod.Some? {
      FabricChars();
      LowerTrimContains(TrimSpace, mod.value, Fabric);
      if Trim(TrimSpace, mod.value) == [] {
        assert Lower([]) == [];
      }
    }
  }

  /** A stored mod mentioning Fabric comes from a reported mod mentioning it. */
  lemma CollectedFabricModIsReported(raw: seq<Option<string>>, i: nat)
    requires i < |CollectMods(raw)| && Contains(CollectMods(raw)[i], Fabric)
    ensures exists k :: 0 <= k < |raw| && raw[k].Some? && Contains(Lower(raw[k].value), Fabric)
  {
    var ms := CollectMods(raw);
    CollectModsMembers(raw, ms[i]);
    var k :| 0 <= k < |raw| && NormalizeMod(raw[k]) == Some(ms[i]);
    NormalizedModMentionsFabric(raw[k]);
  }

  /** A reported mod mentioning Fabric leaves a stored mod mentioning it. */
  lemma ReportedFabricModIsCollected(raw: seq<Option<string>>, k: nat)
    requires k < |raw| && raw[k].Some? && Contains(Lower(raw[k].value), Fabric)
    ensures exists i :: 0 <= i < |CollectMods(raw)| && Contains(CollectMods(raw)[i], Fabric)
  {
    NormalizedModMentionsFabric(raw[k]);
    var n := NormalizeMod(raw[k]).value;
    CollectModsMembers(raw, n);
    var ms := CollectMods(raw);
    var i :| 0 <= i < |ms| && ms[i] == n;
  }

  /**
   * End to end: the mods stored from a report indicate Fabric exactly when
   * some reported non-null mod, lower-cased, contains "fabric".
   */
  lemma NormalizedModsIndicateFabricIff(mods: Option<seq<Option<string>>>)
    ensures ModsIndicateFabric(NormalizeMods(mods)) <==>
              mods.Some? && exists k :: 0 <= k < |mods.value| && mods.value[k].Some? &&
                                        Contains(Lower(mods.value[k].value), Fabric)
  {
    ModsIndicateFabricIff(NormalizeMods(mods));
    if mods.Some? {
      var raw := mods.value;
      var ms := CollectMods(raw);
      if exists i :: 0 <= i < |ms| && Contains(ms[i], Fabric) {
        var i :| 0 <= i < |ms| && Contains(ms[i], Fabric);
        CollectedFabricModIsReported(raw, i);
      }
      if exists k :: 0 <= k < |raw| && raw[k].Some? && Contains(Lower(raw[k].value), Fabric) {
        var k :| 0 <= k < |raw| && raw[k].Some? && Contains(Lower(raw[k].value), Fabric);
        ReportedFabricModIsCollected(raw, k);
      }
    }
  }

  // ---------------------------------------------------------------------
  // Worked examples

  /** A brand is a Fabric brand as soon as "fabric" occurs in it, ignoring case. */
  lemma BrandMatchAt(b: string, i: nat)
    requires MatchAt(Lower(b), Fabric, i)
    ensures BrandIndicatesFabric(Some(b))
  {
    BrandIndicatesFabricIff(Some(b));
  }

  /** "fabric" cannot occur where no 'f' could start it. */
  lemma NoFabricWithoutF(s: string)
    requires forall i :: 0 <= i <= |s| - |Fabric| ==> s[i] != 'f'
    ensures !Contains(s, Fabric)
  {
    if Contains(s, Fabric) {
      var i :| 0 <= i <= |s| - |Fabric| && MatchAt(s, Fabric, i);
      MatchedChar(s, Fabric, i, 0);
    }
  }

  /** A brand in which "fabric" occurs nowhere, ignoring case, is not a Fabric brand. */
  lemma BrandMatchesNowhere(b: string)
    requires forall i :: 0 <= i <= |b| - |Fabric| ==> Lower(b)[i] != 'f'
    ensures !BrandIndicatesFabric(Some(b))
  {
    BrandIndicatesFabricIff(Some(b));
    NoFabricWithoutF(Lower(b));
  }

  /** A brand is recognised through trimming and case folding. */
  lemma PaddedMixedCaseBrandExample(b: string)
    requires b == " Fabric "
    ensures BrandIndicatesFabric(Some(b))
  {
    assert MatchAt(Lower(b), Fabric, 1) by {
      assert Lower(b)[1..7] == Fabric;
    }
    BrandMatchAt(b, 1);
  }

  /** A brand is recognised in a later NUL-separated fragment. */
  lemma NulSeparatedBrandExample(b: string)
    requires b == "PaperMC\0fabric-api"
    ensures BrandIndicatesFabric(Some(b))
  {
    assert MatchAt(Lower(b), Fabric, 8) by {
      var l := Lower(b);
      assert l[8] == 'f' && l[9] == 'a' && l[10] == 'b' && l[11] == 'r' && l[12] == 'i' && l[13] == 'c';
      assert l[8..14] == Fabric;
    }
    BrandMatchAt(b, 8);
  }

  lemma PlainBrandExample(b: string)
    requires b == "fabric"
    ensures BrandIndicatesFabric(Some(b))
  {
    assert MatchAt(Lower(b), Fabric, 0) by {
      assert Lower(b)[0..6] == Fabric;
    }
    BrandMatchAt(b, 0);
  }

  lemma VanillaBrandExample(b: string)
    requires b == "vanilla"
    ensures !BrandIndicatesFabric(Some(b))
  {
    BrandMatchesNowhere(b);
  }

  /** A blank brand, however long, is not a Fabric brand. */
  lemma BlankBrandExample(b: string)
    requires forall k :: 0 <= k < |b| ==> b[k] <= ' '
    ensures !BrandIndicatesFabric(Some(b))
  {
    BrandMatchesNowhere(b);
  }

  lemma ModsExamples()
    ensures ModsIndicateFabric(Some(["fabricloader"]))
    ensures ModsIndicateFabric(Some(["sodium", "fabric-api"]))
    ensures !ModsIndicateFabric(Some(["some-other-mod"]))
    ensures !ModsIndicateFabric(Some([]))
    ensures !ModsIndicateFabric(None)
  {
    ModsIndicateFabricIff(Some(["sodium", "fabric-api"]));
    assert MatchAt(["sodium", "fabric-api"][1], Fabric, 0);
    ModsIndicateFabricIff(Some(["some-other-mod"]));
    NoFabricWithoutF("some-other-mod");
  }

  /** The decision table over (brand, mods). */
  lemma DecisionExamples()
    ensures ComputeLegacyDecision(Some("fabric"), None)
    ensures ComputeLegacyDecision(Some("vanilla"), Some(["fabricloader"]))
    ensures !ComputeLegacyDecision(Some("vanilla"), Some(["some-other-mod"]))
    ensures !ComputeLegacyDecision(None, None)
    ensures ComputeLegacyDecision(Some("PaperMC\0fabric-api"), None)
    ensures ComputeLegacyDecision(Some(" Fabric "), None)
  {
    PaddedMixedCaseBrandExample(" Fabric ");
    ComputeLegacyDecisionIff(Some("vanilla"), Some(["some-other-mod"]));
    NulSeparatedBrandExample("PaperMC\0fabric-api");
    PlainBrandExample("fabric");
    VanillaBrandExample("vanilla");
    ModsExamples();
  }
}
