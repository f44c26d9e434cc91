# ViaBrandTracker, modelled in Dafny

A Minecraft server mod keeps a registry of what each connected client has
reported about itself. A client reports its *brand* string, such as
`"fabric"` or `"vanilla"`, and its *mod list*. From that metadata the mod decides whether the
client is a Fabric client, which gets legacy particle packets, or a modern
client. This project models that registry (`ViaBrandTracker`) and proves
what its operations promise.

Files:

- `wrappers.dfy`: `Option`, the model of Java's nullable references.
- `java_strings.dfy`: the `java.lang.String` operations the registry uses,
  with their ASCII behaviour:
  - `trim` and `strip` (`Trim` with `TrimSpace` or `StripSpace`);
  - `toLowerCase(Locale.ROOT)` (`Lower`);
  - `split` on one character (`Split`);
  - `contains` (`Contains`).
- `classifier.dfy`: the pure part of `ClientInfo`:
  - `brandIndicatesFabric`, `modsIndicateFabric` and `computeLegacyDecision`;
  - the mod-list normalisation of `setClientMods`, which trims, lower-cases,
    drops blanks and de-duplicates in first-seen order, as a `LinkedHashSet`
    does.
- `tracker.dfy`: the stateful part:
  - `ClientInfo`: a class whose three fields are updated in place.
  - `BrandTracker`: a class over the `CLIENTS` map. Its methods
    `SetBrand`, `SetClientModList` and `ShouldUseLegacyParticles` create
    entries lazily, update one field, reset the cached decision and remove
    entries that a null report leaves empty.
  - Each registry method is proved against a pure function of the
    registry's abstract value, a `map<Connection, ClientState>`:
    `AfterSetBrand`, `AfterSetClientModList` and `QueryDecision`. The
    lemmas about those functions state what the source promises.

How the model represents the source:

- A Java `null` becomes `None`, or `null` for the connection.
- A connection is an object compared by identity.
- The "notification" is the returned flag `notified`. The source signals the
  decision change only by a log line; the model reports it as this flag.
- The decision query returns the fresh verdict whatever was cached. It
  notifies exactly when no verdict was cached or the cached one differed.
  Because a report always forgets the cached verdict, the cache is never
  stale (`WellFormed`). Every operation preserves it, and the registry's
  methods carry it as a pre- and postcondition. So after any report that
  leaves an entry for the connection, the next query notifies
  (`QueryAfterSetBrand`, `QueryAfterSetClientModList`,
  `QueryNotifiesAfterReset`). A report that removes the entry leaves the
  next query answering false without notifying (`ClearBothRemovesEntry`). A
  second query without a report in between never notifies.

The central classifier lemma is `BrandIndicatesFabricIff`. With ASCII case
mapping, `brandIndicatesFabric(b)` holds exactly when `b` is non-null and
`lower(b)` contains `"fabric"`. The outer trim, the split on NUL, the
per-fragment trim and the skipping of blank fragments cannot create or
destroy an occurrence, because `"fabric"` holds no NUL and no character at or
below U+0020. Likewise, the exact `"fabricloader"` test in
`modsIndicateFabric` is subsumed by its substring loop
(`ModsIndicateFabricIff`).

Only a `null` mod list takes the clearing-and-removal path
(`ViaBrandTracker.java:86`). An empty or all-blank
list creates or keeps the entry, stores no mods and resets the decision. So
an entry holding neither brand nor mods can exist. `EmptyModListKeepsEntry`
states this behaviour.

## Model

All source paths are `src/main/java/org/bacon/noviaversionkick/network/ViaBrandTracker.java`.

| member | source | states |
|---|---|---|
| JavaStrings.Trim | src/main/java/org/bacon/noviaversionkick/network/ViaBrandTracker.java:241 | the result is the input with a run of spaces cut from each end and no space left at either end (String.trim; with StripSpace, String.strip) |
| JavaStrings.Lower | src/main/java/org/bacon/noviaversionkick/network/ViaBrandTracker.java:250 | definition: toLowerCase(Locale.ROOT) on ASCII, character by character; see LowerTrimContains |
| JavaStrings.Contains | src/main/java/org/bacon/noviaversionkick/network/ViaBrandTracker.java:254 | definition: String.contains, some position where the pattern matches; see ContainsAcrossSeparator and LowerTrimContains |
| JavaStrings.TrimTwice | src/main/java/org/bacon/noviaversionkick/network/ViaBrandTracker.java:53 | stripping an already stripped brand changes nothing |
| JavaStrings.Split | src/main/java/org/bacon/noviaversionkick/network/ViaBrandTracker.java:245 | splitting on NUL yields at least one fragment and no fragment contains NUL |
| JavaStrings.JoinSplit | src/main/java/org/bacon/noviaversionkick/network/ViaBrandTracker.java:245 | re-joining the fragments with NUL gives the brand back, so splitting loses nothing |
| JavaStrings.ContainsAcrossSeparator | src/main/java/org/bacon/noviaversionkick/network/ViaBrandTracker.java:245-256 | a pattern without the separator occurs in `x + [sep] + y` exactly when it occurs in `x` or in `y` |
| JavaStrings.LowerTrimContains | src/main/java/org/bacon/noviaversionkick/network/ViaBrandTracker.java:250-254 | for a pattern of characters above U+0020, trimming before lower-casing does not change whether it occurs |
| Classifier.BrandIndicatesFabric | src/main/java/org/bacon/noviaversionkick/network/ViaBrandTracker.java:237-259 | definition: brandIndicatesFabric with its null, blank, NUL-split and per-fragment steps; see BrandIndicatesFabricIff |
| Classifier.FragmentIndicatesFabricIff | src/main/java/org/bacon/noviaversionkick/network/ViaBrandTracker.java:250-256 | a fragment counts, after trimming, lower-casing and skipping blanks, exactly when its lower-cased form contains "fabric" |
| Classifier.SplitIndicatesFabricIff | src/main/java/org/bacon/noviaversionkick/network/ViaBrandTracker.java:245-257 | some NUL-separated fragment counts exactly when the whole string, lower-cased, contains "fabric" |
| Classifier.BrandIndicatesFabricIff | src/main/java/org/bacon/noviaversionkick/network/ViaBrandTracker.java:237-259 | brandIndicatesFabric: false for null; true exactly when the lower-cased brand contains "fabric", so blank brands give false |
| Classifier.ModsIndicateFabric | src/main/java/org/bacon/noviaversionkick/network/ViaBrandTracker.java:261-274 | definition: modsIndicateFabric with its null, empty, "fabricloader" and substring-loop steps; see ModsIndicateFabricIff |
| Classifier.AnyModMentionsFabricIff | src/main/java/org/bacon/noviaversionkick/network/ViaBrandTracker.java:268-272 | the loop over the mods finds a mod containing "fabric" exactly when one exists |
| Classifier.ModsIndicateFabricIff | src/main/java/org/bacon/noviaversionkick/network/ViaBrandTracker.java:261-274 | modsIndicateFabric: false for absent or empty mods; otherwise true exactly when some mod contains "fabric" (the "fabricloader" test is subsumed) |
| Classifier.ComputeLegacyDecision | src/main/java/org/bacon/noviaversionkick/network/ViaBrandTracker.java:211-235 | definition: the brand test or the mods test; see ComputeLegacyDecisionIff |
| Classifier.ComputeLegacyDecisionIff | src/main/java/org/bacon/noviaversionkick/network/ViaBrandTracker.java:211-235 | computeLegacyDecision is true exactly when the lower-cased brand or some stored mod contains "fabric" |
| Classifier.NormalizeMod | src/main/java/org/bacon/noviaversionkick/network/ViaBrandTracker.java:156-163 | definition: one reported mod, absent when null or blank, else trimmed and lower-cased; see NormalizedModMentionsFabric |
| Classifier.CollectMods | src/main/java/org/bacon/noviaversionkick/network/ViaBrandTracker.java:154-164 | definition: the LinkedHashSet filled from the reported mods; see CollectModsStep, CollectModsMembers, CollectModsDistinct and CollectModsPrefix |
| Classifier.NormalizeMods | src/main/java/org/bacon/noviaversionkick/network/ViaBrandTracker.java:149-166 | definition: the clientMods field setClientMods leaves, absent for a null, empty or all-blank list; see NormalizeModsWellFormed and NormalizedModsIndicateFabricIff |
| Classifier.CollectModsStep | src/main/java/org/bacon/noviaversionkick/network/ViaBrandTracker.java:155-164 | one loop iteration: the mod's normalised form is added to the set unless it is null, blank or already there |
| Classifier.CollectModsMembers | src/main/java/org/bacon/noviaversionkick/network/ViaBrandTracker.java:154-164 | the collected set holds exactly the trimmed, lower-cased forms of the non-null, non-blank reported mods |
| Classifier.CollectModsDistinct | src/main/java/org/bacon/noviaversionkick/network/ViaBrandTracker.java:154-164 | each mod is collected once |
| Classifier.CollectModsPrefix | src/main/java/org/bacon/noviaversionkick/network/ViaBrandTracker.java:154-164 | first-seen order: later mods only append to what earlier mods collected |
| Classifier.StrippedBrandDecision | src/main/java/org/bacon/noviaversionkick/network/ViaBrandTracker.java:53 | the decision on the stripped brand that setBrand stores equals the decision the raw brand would give |
| Classifier.NormalizeModsWellFormed | src/main/java/org/bacon/noviaversionkick/network/ViaBrandTracker.java:149-166 | a stored mod set is non-empty and duplicate-free, and every element is non-blank, trimmed and lower-case |
| Classifier.NormalizedModMentionsFabric | src/main/java/org/bacon/noviaversionkick/network/ViaBrandTracker.java:156-163 | a reported mod survives normalisation still containing "fabric" exactly when it is non-null and contains "fabric" ignoring case |
| Classifier.NormalizedModsIndicateFabricIff | src/main/java/org/bacon/noviaversionkick/network/ViaBrandTracker.java:149-166 | the stored mods indicate Fabric exactly when some reported non-null mod, lower-cased, contains "fabric" |
| Classifier.PaddedMixedCaseBrandExample | src/main/java/org/bacon/noviaversionkick/network/ViaBrandTracker.java:241-254 | the brand " Fabric " indicates Fabric |
| Classifier.NulSeparatedBrandExample | src/main/java/org/bacon/noviaversionkick/network/ViaBrandTracker.java:245-254 | the brand "PaperMC\0fabric-api" indicates Fabric through its second fragment |
| Classifier.PlainBrandExample | src/main/java/org/bacon/noviaversionkick/network/ViaBrandTracker.java:254 | the brand "fabric" indicates Fabric |
| Classifier.VanillaBrandExample | src/main/java/org/bacon/noviaversionkick/network/ViaBrandTracker.java:246-258 | the brand "vanilla" does not |
| Classifier.BlankBrandExample | src/main/java/org/bacon/noviaversionkick/network/ViaBrandTracker.java:242-244 | every blank brand (all characters at or below U+0020, including "") does not |
| Classifier.ModsExamples | src/main/java/org/bacon/noviaversionkick/network/ViaBrandTracker.java:261-274 | {"fabricloader"} and {"sodium", "fabric-api"} indicate Fabric; {"some-other-mod"}, the empty set and absent mods do not |
| Classifier.DecisionExamples | src/main/java/org/bacon/noviaversionkick/network/ViaBrandTracker.java:211-235 | the decision over sample (brand, mods) pairs, including a vanilla brand with "fabricloader" in its mods |
| Tracker.IsEmpty | src/main/java/org/bacon/noviaversionkick/network/ViaBrandTracker.java:194-196 | definition: isEmpty; see IsEmptyWhenWellFormed |
| Tracker.NewEntryIsEmpty | src/main/java/org/bacon/noviaversionkick/network/ViaBrandTracker.java:140-143 | a freshly created ClientInfo holds nothing (isEmpty) and is well formed |
| Tracker.IsEmptyWhenWellFormed | src/main/java/org/bacon/noviaversionkick/network/ViaBrandTracker.java:194-196 | a stored entry is empty exactly when both brand and mods are absent, since stored mod sets are never empty |
| Tracker.ClientInfo.constructor | src/main/java/org/bacon/noviaversionkick/network/ViaBrandTracker.java:140-143 | a new entry holds no brand, no mods and no cached decision |
| Tracker.ClientInfo.SetBrand | src/main/java/org/bacon/noviaversionkick/network/ViaBrandTracker.java:145-147 | only the brand changes |
| Tracker.ClientInfo.SetClientMods | src/main/java/org/bacon/noviaversionkick/network/ViaBrandTracker.java:149-166 | the loop leaves exactly the normalised mods (absent when null, empty or all blank); nothing else changes |
| Tracker.ClientInfo.ShouldUseLegacyParticles | src/main/java/org/bacon/noviaversionkick/network/ViaBrandTracker.java:168-188 | returns the freshly computed decision, caches it, and notifies exactly when no decision or a different one was cached |
| Tracker.ClientInfo.ResetLegacyDecisionLog | src/main/java/org/bacon/noviaversionkick/network/ViaBrandTracker.java:190-192 | only the cached decision is forgotten |
| Tracker.AfterSetBrand | src/main/java/org/bacon/noviaversionkick/network/ViaBrandTracker.java:27-72 | definition: the registry after setBrand; see SetBrandRecords, ClearBrand, SetBrandIdempotent and SetBrandKeepsWellFormed |
| Tracker.AfterSetClientModList | src/main/java/org/bacon/noviaversionkick/network/ViaBrandTracker.java:74-114 | definition: the registry after setClientModList; see SetClientModListRecords, ClearClientModList, EmptyModListKeepsEntry and SetClientModListKeepsWellFormed |
| Tracker.QueryDecision | src/main/java/org/bacon/noviaversionkick/network/ViaBrandTracker.java:116-130 | definition: the answer, notification and registry after shouldUseLegacyParticles; see QueryDecisionFresh, SecondQueryIsSilent and QueryKeepsWellFormed |
| Tracker.BrandTracker.constructor | src/main/java/org/bacon/noviaversionkick/network/ViaBrandTracker.java:23 | the registry starts empty |
| Tracker.BrandTracker.EntryFor | src/main/java/org/bacon/noviaversionkick/network/ViaBrandTracker.java:59-63 | returns the connection's entry, creating and storing an empty one when there is none; other entries are untouched |
| Tracker.BrandTracker.RemoveIfEmpty | src/main/java/org/bacon/noviaversionkick/network/ViaBrandTracker.java:44-47 | the entry is removed exactly when it is empty |
| Tracker.BrandTracker.DropBrand | src/main/java/org/bacon/noviaversionkick/network/ViaBrandTracker.java:40-47 | a null brand for a known connection clears the brand and the cached decision, then removes the entry if it is empty |
| Tracker.BrandTracker.StoreBrand | src/main/java/org/bacon/noviaversionkick/network/ViaBrandTracker.java:59-65 | the entry, created if needed, gets the stripped brand and no cached decision |
| Tracker.BrandTracker.SetBrand | src/main/java/org/bacon/noviaversionkick/network/ViaBrandTracker.java:27-72 | the new registry is AfterSetBrand of the old one, and every entry stays well formed |
| Tracker.BrandTracker.DropClientMods | src/main/java/org/bacon/noviaversionkick/network/ViaBrandTracker.java:87-94 | a null mod list for a known connection clears the mods and the cached decision, then removes the entry if it is empty |
| Tracker.BrandTracker.StoreClientMods | src/main/java/org/bacon/noviaversionkick/network/ViaBrandTracker.java:100-106 | the entry, created if needed, gets the normalised mods and no cached decision |
| Tracker.BrandTracker.SetClientModList | src/main/java/org/bacon/noviaversionkick/network/ViaBrandTracker.java:74-114 | the new registry is AfterSetClientModList of the old one, and every entry stays well formed |
| Tracker.BrandTracker.ShouldUseLegacyParticles | src/main/java/org/bacon/noviaversionkick/network/ViaBrandTracker.java:116-130 | the answer, the notification and the new registry are those QueryDecision gives for the old registry, and every entry stays well formed |
| Tracker.SetBrandKeepsWellFormed | src/main/java/org/bacon/noviaversionkick/network/ViaBrandTracker.java:39-65 | setBrand keeps every entry well formed: normalised mods, and a cached decision, when present, equal to the classifier's |
| Tracker.SetClientModListKeepsWellFormed | src/main/java/org/bacon/noviaversionkick/network/ViaBrandTracker.java:86-106 | setClientModList keeps every entry well formed |
| Tracker.QueryKeepsWellFormed | src/main/java/org/bacon/noviaversionkick/network/ViaBrandTracker.java:168-188 | the query caches only the classifier's own verdict |
| Tracker.NullConnectionIgnored | src/main/java/org/bacon/noviaversionkick/network/ViaBrandTracker.java:33-36 | with a null connection both reports leave the registry unchanged and the query answers false without notifying (also lines 80-83 and 117-119) |
| Tracker.QueryWithoutEntry | src/main/java/org/bacon/noviaversionkick/network/ViaBrandTracker.java:122-128 | a connection without an entry gets false, and the registry is unchanged |
| Tracker.SetBrandRecords | src/main/java/org/bacon/noviaversionkick/network/ViaBrandTracker.java:53-65 | a non-null brand leaves an entry holding the stripped brand (possibly ""), the old mods and no cached decision; other entries are unchanged |
| Tracker.SetBrandIdempotent | src/main/java/org/bacon/noviaversionkick/network/ViaBrandTracker.java:39-65 | reporting the same brand twice leaves the same registry as reporting it once |
| Tracker.ClearBrand | src/main/java/org/bacon/noviaversionkick/network/ViaBrandTracker.java:39-51 | a null brand changes nothing without an entry; otherwise it clears brand and decision and removes the entry exactly when it is then empty |
| Tracker.SetClientModListRecords | src/main/java/org/bacon/noviaversionkick/network/ViaBrandTracker.java:100-106 | a non-null mod list leaves an entry holding the normalised mods, the old brand and no cached decision; other entries are unchanged |
| Tracker.SetClientModListIdempotent | src/main/java/org/bacon/noviaversionkick/network/ViaBrandTracker.java:86-106 | reporting the same mod list twice leaves the same registry as reporting it once |
| Tracker.ClearClientModList | src/main/java/org/bacon/noviaversionkick/network/ViaBrandTracker.java:86-98 | a null mod list changes nothing without an entry; otherwise it clears mods and decision and removes the entry exactly when it is then empty |
| Tracker.ClearBothRemovesEntry | src/main/java/org/bacon/noviaversionkick/network/ViaBrandTracker.java:194-196 | a null brand followed by a null mod list removes the entry, touches no other entry, and a later query gives false |
| Tracker.EmptyModListKeepsEntry | src/main/java/org/bacon/noviaversionkick/network/ViaBrandTracker.java:150-152 | for any registry, an empty or all-blank mod list creates or keeps the entry with no mods and no cached decision, touches no other entry, and for an unknown connection adds an entry holding nothing |
| Tracker.QueryDecisionFresh | src/main/java/org/bacon/noviaversionkick/network/ViaBrandTracker.java:168-188 | the query returns the classifier's verdict whatever was cached, caches it, and notifies exactly when the cache held something else |
| Tracker.SecondQueryIsSilent | src/main/java/org/bacon/noviaversionkick/network/ViaBrandTracker.java:170-172 | of two queries with no report in between, the second gives the same answer, does not notify and changes nothing |
| Tracker.QueryNotifiesAfterReset | src/main/java/org/bacon/noviaversionkick/network/ViaBrandTracker.java:190-192 | on a well-formed registry a query notifies exactly when no decision is cached |
| Tracker.QueryAfterSetBrand | src/main/java/org/bacon/noviaversionkick/network/ViaBrandTracker.java:53-65 | right after a brand report the query notifies, and answers true exactly when the reported brand or the stored mods mention "fabric" |
| Tracker.QueryAfterSetClientModList | src/main/java/org/bacon/noviaversionkick/network/ViaBrandTracker.java:100-106 | right after a mod-list report the query notifies, and answers true exactly when some reported mod or the stored brand mentions "fabric" |
| Tracker.Session | src/main/java/org/bacon/noviaversionkick/network/ViaBrandTracker.java:116-130 | a Fabric brand, then two queries (legacy and notify, then legacy and silent), then two null reports and a query (modern and silent) |

## Left out

- Logging: every `LOGGER.info` call is left out, along with `describeConnection`
  (it reads the socket address) and `describeClientModCount` /
  `describeClientMods` (they only format log text). None of them affects a
  returned value or the stored state.
- Concurrency: `Collections.synchronizedMap`, the `synchronized` blocks and
  methods and the `volatile` fields are left out. The operations are modelled
  one at a time. The source reads the entry and queries it in two separate
  steps (lines 122-129); a report that runs between those steps is not modelled.
- Garbage collection: the `WeakHashMap` drops an entry once its connection
  is garbage-collected. This runtime behaviour is not modelled; entries
  leave the registry only through the removal path.
- `ServerCommonNetworkHandlerMixin.java` is not part of this model. It only
  forwards brand payloads from Minecraft packet classes to `setBrand`.
- JavaStrings.Trim: with `StripSpace` it covers only the ASCII characters
  that `Character.isWhitespace` accepts. The Unicode space separators that
  `String.strip` also removes are not modelled. `TrimSpace` is exactly
  `String.trim`.
- JavaStrings.Lower: only 'A'..'Z' are lower-cased. Full Unicode
  `toLowerCase(Locale.ROOT)`, which can also change a string's length, is
  not modelled. Every lemma about "fabric" assumes this ASCII mapping.
- JavaStrings.Split: keeps trailing empty fragments, which Java's `split`
  drops. The difference cannot change a decision, because empty fragments
  are skipped.
- Classifier.CollectMods: the `LinkedHashSet` is modelled as a
  duplicate-free sequence in insertion order, and `Set.contains` as
  sequence membership.
- Tracker.BrandTracker: registry keys are compared by object identity,
  which matches `WeakHashMap` only for connection classes that do not
  override `equals`. The model assumes Minecraft's `ClientConnection`
  keeps `Object.equals`; the class itself is not part of this model.
