/**
 * ViaBrandTracker: the per-connection registry of what each client reported
 * about itself (its brand and its mod list), and the query that decides,
 * from that metadata, whether the connection gets legacy particle packets.
 *
 * The registry is a class over a map from connections to ClientInfo objects,
 * whose fields the operations update in place. Its abstract value, a map from
 * connections to ClientState values, is specified by the pure functions
 * AfterSetBrand, AfterSetClientModList and QueryDecision; the lemmas below
 * state what those promise.
 */
module Tracker {
  import opened Wrappers
  import opened JavaStrings
  import opened Classifier

  /** The transport's connection object: the registry only compares it by identity. */
  class Connection {
    constructor ()
    {
    }
  }

  /** The three fields of a ClientInfo, as a value. */
  datatype ClientState = ClientState(
    brand: Option<string>,
    clientMods: Option<seq<string>>,
    lastLegacyDecision: Option<bool>)

  /** What a freshly created ClientInfo holds. */
  const NewEntry: ClientState := ClientState(None, None, None)

  /** The decision the classifier derives from an entry's current metadata. */
  predicate Decision(e: ClientState)
  {
    ComputeLegacyDecision(e.brand, e.clientMods)
  }

  /**
   * What every stored entry satisfies: its mods, when present, were normalised
   * by setClientMods, and its cached decision, when present, is the one the
   * classifier gives for its current metadata (the cache is never stale).
   */
  predicate WellFormed(e: ClientState)
  {
    && (e.clientMods.Some? ==> WellFormedMods(e.clientMods.value))
    && (e.lastLegacyDecision.Some? ==> e.lastLegacyDecision.value == Decision(e))
  }

  /** ClientInfo.isEmpty: no brand, and no mods or an empty mod set. */
  predicate IsEmpty(e: ClientState)
  {
    e.brand.None? && (e.clientMods.None? || e.clientMods.value == [])
  }

  /** A freshly created entry holds nothing, and is well formed. */
  lemma NewEntryIsEmpty()
    ensures IsEmpty(NewEntry) && WellFormed(NewEntry)
  {
  }

  /** Stored mod sets are never empty, so a well-formed entry is empty exactly when both fields are absent. */
  lemma IsEmptyWhenWellFormed(e: ClientState)
    requires WellFormed(e)
    ensures IsEmpty(e) <==> e.brand.None? && e.clientMods.None?
  {
  }

  /** ClientInfo: the metadata one connection reported, updated in place. */
  class ClientInfo {
    var brand: Option<string>
    var clientMods: Option<seq<string>>
    var lastLegacyDecision: Option<bool>

    function State(): ClientState
      reads this
    {
      ClientState(brand, clientMods, lastLegacyDecision)
    }

    constructor ()
      ensures State() == NewEntry
    {
      brand, clientMods, lastLegacyDecision := None, None, None;
    }

    /** Records a (possibly null) brand; the other fields are untouched. */
    method SetBrand(b: Option<string>)
      modifies this`brand
      ensures State() == old(State()).(brand := b)
    {
      brand := b;
    }

    /**
     * Records a mod list: null, empty and all-blank lists leave no mods;
     * otherwise the non-null, non-blank mods, trimmed and lower-cased, each
     * kept once in first-seen order.
     */
    method SetClientMods(mods: Option<seq<Option<string>>>)
      modifies this`clientMods
      ensures State() == old(State()).(clientMods := NormalizeMods(mods))
    {
      if mods.None? || mods.value == [] {
        clientMods := None;
        return;
      }
      var raw := mods.value;
      var normalized: seq<string> := [];
      var i := 0;
      while i < |raw|
        invariant 0 <= i <= |raw|
        invariant normalized == CollectMods(raw[..i])
      {
        CollectModsStep(raw, i);
        var mod := raw[i];
        if mod.Some? {
          var trimmed := Trim(TrimSpace, mod.value);
          if trimmed != [] {
            var lowered := Lower(trimmed);
            assert NormalizeMod(mod) == Some(lowered);
            if lowered !in normalized {
              normalized := normalized + [lowered];
            }
          } else {
            assert NormalizeMod(mod) == None;
          }
        } else {
          assert NormalizeMod(mod) == None;
        }
        i := i + 1;
      }
      assert raw[..i] == raw;
      clientMods := if normalized == [] then None else Some(normalized);
    }

    /**
     * Returns the freshly computed decision, caches it, and reports whether a
     * notification is due: exactly when no decision was cached or the cached
     * one differs.
     */
    method ShouldUseLegacyParticles() returns (legacy: bool, notified: bool)
      modifies this`lastLegacyDecision
      ensures legacy == ComputeLegacyDecision(brand, clientMods)
      ensures lastLegacyDecision == Some(legacy)
      ensures notified == (old(lastLegacyDecision) != Some(legacy))
    {
      legacy := ComputeLegacyDecision(brand, clientMods);
      var previousDecision := lastLegacyDecision;
      notified := previousDecision.None? || previousDecision.value != legacy;
      if notified {
        lastLegacyDecision := Some(legacy);
      }
    }

    /** Forgets the cached decision, so that the next query notifies again. */
    method ResetLegacyDecisionLog()
      modifies this`lastLegacyDecision
      ensures State() == old(State()).(lastLegacyDecision := None)
    {
      lastLegacyDecision := None;
    }
  }

  // -----------------------------------------------------------------------
  // The registry's abstract value and its three operations

  type Entries = map<Connection, ClientState>

  predicate AllWellFormed(m: Entries)
  {
    forall c :: c in m ==> WellFormed(m[c])
  }

  /** After a clearing report: the updated entry, or no entry once it holds nothing. */
  function Cleared(m: Entries, conn: Connection, e: ClientState): Entries
  {
    if IsEmpty(e) then m - {conn} else m[conn := e]
  }

  /** Updating one connection's entry leaves every other entry alone. */
  lemma UpdateOthers(m: Entries, conn: Connection, e: ClientState)
    ensures m[conn := e] - {conn} == m - {conn}
  {
    assert (m[conn := e] - {conn}).Keys == (m - {conn}).Keys;
  }

  /** What a clearing report leaves does not depend on the entry it replaces. */
  lemma ClearedOverwrite(m: Entries, conn: Connection, e: ClientState, e': ClientState)
    ensures Cleared(m[conn := e'], conn, e) == Cleared(m, conn, e)
  {
    UpdateOthers(m, conn, e');
  }

  /** The entry for `conn`, or a fresh one when there is none yet. */
  function Existing(m: Entries, conn: Connection): ClientState
  {
    if conn in m then m[conn] else NewEntry
  }

  /** A second update of the same connection overrides the first. */
  lemma UpdateTwice(m: Entries, conn: Connection, e: ClientState, e': ClientState)
    ensures m[conn := e][conn := e'] == m[conn := e']
  {
    assert m[conn := e][conn := e'].Keys == m[conn := e'].Keys;
  }

  /** The registry after setBrand(conn, brand). */
  function AfterSetBrand(m: Entries, conn: Connection?, brand: Option<string>): Entries
  {
    if conn == null then m
    else match brand
      case None =>
        if conn !in m then m
        else Cleared(m, conn, m[conn].(brand := None, lastLegacyDecision := None))
      case Some(b) =>
        m[conn := Existing(m, conn).(brand := Some(Trim(StripSpace, b)), lastLegacyDecision := None)]
  }

  /** The registry after setClientModList(conn, mods). */
  function AfterSetClientModList(m: Entries, conn: Connection?, mods: Option<seq<Option<string>>>): Entries
  {
    if conn == null then m
    else if mods.None? then
      if conn !in m then m
      else Cleared(m, conn, m[conn].(clientMods := None, lastLegacyDecision := None))
    else
      m[conn := Existing(m, conn).(clientMods := NormalizeMods(mods), lastLegacyDecision := None)]
  }

  /** What shouldUseLegacyParticles returns, whether it notifies, and the registry after it. */
  datatype QueryOutcome = QueryOutcome(legacy: bool, notified: bool, entries: Entries)

  function QueryDecision(m: Entries, conn: Connection?): QueryOutcome
  {
    if conn == null || conn !in m then QueryOutcome(false, false, m)
    else
      var e := m[conn];
      var legacy := Decision(e);
      var notify := e.lastLegacyDecision != Some(legacy);
      QueryOutcome(legacy, notify, if notify then m[conn := e.(lastLegacyDecision := Some(legacy))] else m)
  }

  // -----------------------------------------------------------------------
  // The registry itself

  /** The CLIENTS map of ViaBrandTracker and the three operations on it. */
  class BrandTracker {
    var clients: map<Connection, ClientInfo>
    ghost var Repr: set<object>  // this object and every ClientInfo it has handed out

    /**
     * Every ClientInfo is in Repr and no two connections share one, so that
     * updating one connection's info leaves every other entry alone.
     */
    ghost predicate Valid()
      reads this, Repr
    {
      && this in Repr
      && clients.Values <= Repr
      && (forall c, d :: c in clients && d in clients && c != d ==> clients[c] != clients[d])
    }

    ghost function Entries(): Entries
      reads this, clients.Values
    {
      map c | c in clients :: clients[c].State()
    }

    constructor ()
      ensures Valid() && fresh(Repr) && Entries() == map[]
    {
      clients := map[];
      Repr := {this};
    }

    /** The entry for `conn`, created empty and stored when there is none yet. */
    method EntryFor(conn: Connection) returns (info: ClientInfo)
      requires Valid()
      modifies this
      ensures Valid() && fresh(Repr - old(Repr))
      ensures conn in clients && clients[conn] == info && info in Repr
      ensures info.State() == if conn in old(Entries()) then old(Entries())[conn] else NewEntry
      ensures Entries() == old(Entries())[conn := info.State()]
    {
      if conn in clients {
        info := clients[conn];
        assert Entries() == old(Entries())[conn := info.State()];
      } else {
        info := new ClientInfo();
        clients := clients[conn := info];
        Repr := Repr + {info};
        assert Entries() == old(Entries())[conn := info.State()];
      }
    }

    /** Changing the fields of one ClientInfo changes only its own connection's entry. */
    twostate lemma OneEntryChanged(conn: Connection)
      requires conn in clients && clients == old(clients)
      requires forall c, d :: c in clients && d in clients && c != d ==> clients[c] != clients[d]
      requires forall c :: c in clients && c != conn ==> unchanged(clients[c])
      ensures Entries() == old(Entries())[conn := clients[conn].State()]
    {
    }

    /** Drops the entry for `conn` when it holds nothing any more. */
    method RemoveIfEmpty(conn: Connection)
      requires conn in clients && this in Repr && clients.Values <= Repr
      requires forall c, d :: c in clients && d in clients && c != d ==> clients[c] != clients[d]
      modifies this`clients
      ensures Valid()
      ensures Entries() == Cleared(old(Entries()), conn, old(Entries())[conn])
    {
      if IsEmpty(clients[conn].State()) {
        clients := clients - {conn};
        assert Entries() == old(Entries()) - {conn};
      } else {
        assert Entries() == old(Entries())[conn := clients[conn].State()];
      }
    }

    /** The clearing path of setBrand: forget the brand and the cached decision, then drop an empty entry. */
    method DropBrand(conn: Connection)
      requires Valid() && conn in clients
      modifies Repr
      ensures Valid() && Repr == old(Repr)
      ensures Entries() == Cleared(old(Entries()), conn, old(Entries())[conn].(brand := None, lastLegacyDecision := None))
    {
      ghost var before := Entries();
      var info := clients[conn];
      label found:
      info.SetBrand(None);
      info.ResetLegacyDecisionLog();
      OneEntryChanged@found(conn);
      ghost var after := before[conn].(brand := None, lastLegacyDecision := None);
      assert info.State() == after;
      RemoveIfEmpty(conn);
      ClearedOverwrite(before, conn, after, after);
    }

    /** The storing path of setBrand: record the sanitised brand and forget the cached decision. */
    method StoreBrand(conn: Connection, sanitized: string)
      requires Valid()
      modifies Repr
      ensures Valid() && fresh(Repr - old(Repr))
      ensures Entries() == old(Entries())[conn := Existing(old(Entries()), conn).(brand := Some(sanitized), lastLegacyDecision := None)]
    {
      var info := EntryFor(conn);
      label created:
      ghost var e := info.State();
      info.SetBrand(Some(sanitized));
      info.ResetLegacyDecisionLog();
      OneEntryChanged@created(conn);
      assert info.State() == e.(brand := Some(sanitized), lastLegacyDecision := None);
    }

    method SetBrand(conn: Connection?, brand: Option<string>)
      requires Valid() && AllWellFormed(Entries())
      modifies Repr
      ensures Valid() && fresh(Repr - old(Repr))
      ensures Entries() == AfterSetBrand(old(Entries()), conn, brand)
      ensures AllWellFormed(Entries())
    {
      SetBrandKeepsWellFormed(Entries(), conn, brand);
      if conn == null {
        return;
      }
      if brand.None? {
        if conn in clients {
          DropBrand(conn);
        }
        return;
      }
      var sanitized := Trim(StripSpace, brand.value);
      StoreBrand(conn, sanitized);
    }

    /** The clearing path of setClientModList: forget the mods and the cached decision, then drop an empty entry. */
    method DropClientMods(conn: Connection)
      requires Valid() && conn in clients
      modifies Repr
      ensures Valid() && Repr == old(Repr)
      ensures Entries() == Cleared(old(Entries()), conn, old(Entries())[conn].(clientMods := None, lastLegacyDecision := None))
    {
      ghost var before := Entries();
      var info := clients[conn];
      label found:
      info.SetClientMods(None);
      info.ResetLegacyDecisionLog();
      OneEntryChanged@found(conn);
      ghost var after := before[conn].(clientMods := None, lastLegacyDecision := None);
      assert info.State() == after;
      RemoveIfEmpty(conn);
      ClearedOverwrite(before, conn, after, after);
    }

    /** The storing path of setClientModList: record the normalised mods and forget the cached decision. */
    method StoreClientMods(conn: Connection, mods: Option<seq<Option<string>>>)
      requires Valid()
      modifies Repr
      ensures Valid() && fresh(Repr - old(Repr))
      ensures Entries() == old(Entries())[conn := Existing(old(Entries()), conn).(clientMods := NormalizeMods(mods), lastLegacyDecision := None)]
    {
      var info := EntryFor(conn);
      label created:
      ghost var e := info.State();
      info.SetClientMods(mods);
      info.ResetLegacyDecisionLog();
      OneEntryChanged@created(conn);
      assert info.State() == e.(clientMods := NormalizeMods(mods), lastLegacyDecision := None);
    }

    method SetClientModList(conn: Connection?, mods: Option<seq<Option<string>>>)
      requires Valid() && AllWellFormed(Entries())
      modifies Repr
      ensures Valid() && fresh(Repr - old(Repr))
      ensures Entries() == AfterSetClientModList(old(Entries()), conn, mods)
      ensures AllWellFormed(Entries())
    {
      SetClientModListKeepsWellFormed(Entries(), conn, mods);
      if conn == null {
        return;
      }
      if mods.None? {
        if conn in clients {
          DropClientMods(conn);
        }
        return;
      }
      StoreClientMods(conn, mods);
    }

    method ShouldUseLegacyParticles(conn: Connection?) returns (legacy: bool, notified: bool)
      requires Valid() && AllWellFormed(Entries())
      modifies Repr - {this}
      ensures Valid() && clients == old(clients) && Repr == old(Repr)
      ensures QueryOutcome(legacy, notified, Entries()) == QueryDecision(old(Entries()), conn)
      ensures AllWellFormed(Entries())
    {
      ghost var before := Entries();
      QueryKeepsWellFormed(before, conn);
      if conn == null || conn !in clients {
        return false, false;
      }
      var info := clients[conn];
      label asked:
      legacy, notified := info.ShouldUseLegacyParticles();
      OneEntryChanged@asked(conn);
      assert Entries() == QueryDecision(before, conn).entries;
    }
  }

  // -----------------------------------------------------------------------
  // Invariant preservation

  /** setBrand keeps every entry well formed. */
  lemma SetBrandKeepsWellFormed(m: Entries, conn: Connection?, brand: Option<string>)
    requires AllWellFormed(m)
    ensures AllWellFormed(AfterSetBrand(m, conn, brand))
  {
  }

  /** setClientModList keeps every entry well formed. */
  lemma SetClientModListKeepsWellFormed(m: Entries, conn: Connection?, mods: Option<seq<Option<string>>>)
    requires AllWellFormed(m)
    ensures AllWellFormed(AfterSetClientModList(m, conn, mods))
  {
    NormalizeModsWellFormed(mods);
  }

  /** shouldUseLegacyParticles caches only the decision the classifier gives. */
  lemma QueryKeepsWellFormed(m: Entries, conn: Connection?)
    requires AllWellFormed(m)
    ensures AllWellFormed(QueryDecision(m, conn).entries)
  {
  }

  // -----------------------------------------------------------------------
  // Properties of the three operations

  /** A null connection is ignored: nothing is stored and the answer is "modern". */
  lemma NullConnectionIgnored(m: Entries, brand: Option<string>, mods: Option<seq<Option<string>>>)
    ensures AfterSetBrand(m, null, brand) == m
    ensures AfterSetClientModList(m, null, mods) == m
    ensures QueryDecision(m, null) == QueryOutcome(false, false, m)
  {
  }

  /** A connection without an entry gets "modern", and querying changes nothing. */
  lemma QueryWithoutEntry(m: Entries, conn: Connection)
    requires conn !in m
    ensures QueryDecision(m, conn) == QueryOutcome(false, false, m)
  {
  }

  /**
   * A non-null brand creates the entry if needed, stores the stripped brand
   * (possibly empty) and forgets the cached decision; the mods and every
   * other connection's entry are untouched.
   */
  lemma SetBrandRecords(m: Entries, conn: Connection, b: string)
    ensures var r := AfterSetBrand(m, conn, Some(b));
      && conn in r
      && r[conn].brand == Some(Trim(StripSpace, b))
      && r[conn].clientMods == (if conn in m then m[conn].clientMods else None)
      && r[conn].lastLegacyDecision == None
      && r - {conn} == m - {conn}
  {
    UpdateOthers(m, conn, Existing(m, conn).(brand := Some(Trim(StripSpace, b)), lastLegacyDecision := None));
  }

  /** Reporting the same brand twice gives the same registry as reporting it once. */
  lemma SetBrandIdempotent(m: Entries, conn: Connection?, brand: Option<string>)
    ensures AfterSetBrand(AfterSetBrand(m, conn, brand), conn, brand) == AfterSetBrand(m, conn, brand)
  {
    var r := AfterSetBrand(m, conn, brand);
    if conn != null {
      match brand
      case None =>
        if conn in m {
          var e := m[conn].(brand := None, lastLegacyDecision := None);
          if conn in r {
            assert r == m[conn := e];
            assert r[conn].(brand := None, lastLegacyDecision := None) == e;
            ClearedOverwrite(m, conn, e, m[conn]);
          }
        }
      case Some(b) =>
        var t := Trim(StripSpace, b);
        TrimTwice(StripSpace, b);
        var e := Existing(m, conn).(brand := Some(t), lastLegacyDecision := None);
        assert r == m[conn := e];
        assert Existing(r, conn).(brand := Some(Trim(StripSpace, b)), lastLegacyDecision := None) == e;
        UpdateTwice(m, conn, e, e);
    }
  }

  /** Reporting the same mod list twice gives the same registry as reporting it once. */
  lemma SetClientModListIdempotent(m: Entries, conn: Connection?, mods: Option<seq<Option<string>>>)
    ensures AfterSetClientModList(AfterSetClientModList(m, conn, mods), conn, mods) ==
            AfterSetClientModList(m, conn, mods)
  {
  }

  /**
   * A null brand report: without an entry nothing changes; otherwise the
   * brand becomes absent, the cached decision is forgotten, and the entry is
   * removed exactly when it is then empty. Other entries are untouched.
   */
  lemma ClearBrand(m: Entries, conn: Connection)
    ensures var r := AfterSetBrand(m, conn, None);
      && (conn !in m ==> r == m)
      && (conn in m ==>
            var e := m[conn].(brand := None, lastLegacyDecision := None);
            && (conn in r <==> !IsEmpty(e))
            && (conn in r ==> r[conn] == e)
            && r - {conn} == m - {conn})
  {
  }

  /**
   * A null mod-list report: without an entry nothing changes; otherwise the
   * mods become absent, the cached decision is forgotten, and the entry is
   * removed exactly when it is then empty. Other entries are untouched.
   */
  lemma ClearClientModList(m: Entries, conn: Connection)
    ensures var r := AfterSetClientModList(m, conn, None);
      && (conn !in m ==> r == m)
      && (conn in m ==>
            var e := m[conn].(clientMods := None, lastLegacyDecision := None);
            && (conn in r <==> !IsEmpty(e))
            && (conn in r ==> r[conn] == e)
            && r - {conn} == m - {conn})
  {
  }

  /**
   * Clearing law: a null brand followed by a null mod list removes the
   * connection's entry, so a later query answers "modern" without notifying.
   */
  lemma ClearBothRemovesEntry(m: Entries, conn: Connection)
    ensures var r := AfterSetClientModList(AfterSetBrand(m, conn, None), conn, None);
      && conn !in r
      && r - {conn} == m - {conn}
      && QueryDecision(r, conn) == QueryOutcome(false, false, r)
  {
  }

  /**
   * A non-null mod list always creates or keeps the entry, stores the
   * normalised mods (absent when none is left) and forgets the cached
   * decision; the brand and every other connection's entry are untouched.
   */
  lemma SetClientModListRecords(m: Entries, conn: Connection, mods: seq<Option<string>>)
    ensures var r := AfterSetClientModList(m, conn, Some(mods));
      && conn in r
      && r[conn].clientMods == NormalizeMods(Some(mods))
      && r[conn].brand == (if conn in m then m[conn].brand else None)
      && r[conn].lastLegacyDecision == None
      && r - {conn} == m - {conn}
  {
    UpdateOthers(m, conn, Existing(m, conn).(clientMods := NormalizeMods(Some(mods)), lastLegacyDecision := None));
  }

  /**
   * An empty (or all-blank) mod list creates or keeps the entry, with no mods
   * recorded and the cached decision forgotten: only a null list clears and
   * removes. For an unknown connection the new entry holds nothing at all.
   */
  lemma EmptyModListKeepsEntry(m: Entries, conn: Connection, mods: seq<Option<string>>)
    requires forall k :: 0 <= k < |mods| ==> NormalizeMod(mods[k]).None?
    ensures var r := AfterSetClientModList(m, conn, Some(mods));
      && conn in r
      && r[conn] == Existing(m, conn).(clientMods := None, lastLegacyDecision := None)
      && r - {conn} == m - {conn}
    ensures conn !in m ==> AfterSetClientModList(m, conn, Some(mods)) == m[conn := NewEntry]
  {
    if mods != [] {
      CollectModsEmpty(mods);
    }
    assert NormalizeMods(Some(mods)) == None;
    UpdateOthers(m, conn, Existing(m, conn).(clientMods := None, lastLegacyDecision := None));
  }

  /** Mods that all normalise away collect nothing. */
  lemma {:induction false} CollectModsEmpty(mods: seq<Option<string>>)
    requires forall k :: 0 <= k < |mods| ==> NormalizeMod(mods[k]).None?
    ensures CollectMods(mods) == []
  {
    if mods != [] {
      var x := "";
      CollectModsMembers(mods, x);
      if CollectMods(mods) != [] {
        CollectModsMembers(mods, CollectMods(mods)[0]);
      }
    }
  }

  /**
   * The decision query returns the classifier's verdict on the current
   * metadata whatever was cached, caches that verdict, notifies exactly when
   * the cache was empty or held the other verdict, and changes nothing else.
   */
  lemma QueryDecisionFresh(m: Entries, conn: Connection)
    requires conn in m
    ensures var q := QueryDecision(m, conn);
      && q.legacy == ComputeLegacyDecision(m[conn].brand, m[conn].clientMods)
      && q.notified == (m[conn].lastLegacyDecision != Some(q.legacy))
      && q.entries == m[conn := m[conn].(lastLegacyDecision := Some(q.legacy))]
  {
  }

  /** Change suppression: of two queries with no report between them, the second never notifies. */
  lemma SecondQueryIsSilent(m: Entries, conn: Connection?)
    ensures var q1 := QueryDecision(m, conn);
            var q2 := QueryDecision(q1.entries, conn);
      && !q2.notified
      && q2.legacy == q1.legacy
      && q2.entries == q1.entries
  {
  }

  /**
   * Because the cache is never stale, a query on a well-formed registry
   * notifies exactly when no decision is cached, i.e. on the first query
   * after a report.
   */
  lemma QueryNotifiesAfterReset(m: Entries, conn: Connection)
    requires AllWellFormed(m) && conn in m
    ensures QueryDecision(m, conn).notified <==> m[conn].lastLegacyDecision.None?
  {
    assert WellFormed(m[conn]);
  }

  /**
   * End to end: right after a brand report the query notifies, and answers
   * "legacy" exactly when the reported brand, lower-cased, contains "fabric"
   * or the mods already on record indicate Fabric.
   */
  lemma QueryAfterSetBrand(m: Entries, conn: Connection, b: string)
    ensures var q := QueryDecision(AfterSetBrand(m, conn, Some(b)), conn);
      && q.notified
      && (q.legacy <==>
            Contains(Lower(b), Fabric) ||
            (conn in m && ModsIndicateFabric(m[conn].clientMods)))
  {
    var r := AfterSetBrand(m, conn, Some(b));
    SetBrandRecords(m, conn, b);
    QueryDecisionFresh(r, conn);
    StrippedBrandDecision(b, r[conn].clientMods);
  }

  /**
   * End to end: right after a non-null mod-list report the query notifies,
   * and answers "legacy" exactly when some reported non-null mod, lower-cased,
   * contains "fabric" or the brand on record indicates Fabric.
   */
  lemma QueryAfterSetClientModList(m: Entries, conn: Connection, mods: seq<Option<string>>)
    ensures var q := QueryDecision(AfterSetClientModList(m, conn, Some(mods)), conn);
      && q.notified
      && (q.legacy <==>
            (exists k :: 0 <= k < |mods| && mods[k].Some? && Contains(Lower(mods[k].value), Fabric)) ||
            (conn in m && BrandIndicatesFabric(m[conn].brand)))
  {
    NormalizedModsIndicateFabricIff(Some(mods));
  }

  /**
   * A session as the protocol layer drives it: a Fabric brand is reported,
   * the decision is queried twice, then both reports are withdrawn and the
   * decision is queried once more.
   */
  method Session(brand: string) returns (first: (bool, bool), second: (bool, bool), last: (bool, bool))
    requires Contains(Lower(brand), Fabric)
    ensures first == (true, true)    // legacy, and notified
    ensures second == (true, false)  // legacy, and silent
    ensures last == (false, false)   // modern, and silent
  {
    var tracker := new BrandTracker();
    var conn := new Connection();
    tracker.SetBrand(conn, Some(brand));
    ghost var reported := tracker.Entries();
    QueryAfterSetBrand(map[], conn, brand);
    var legacy, notified := tracker.ShouldUseLegacyParticles(conn);
    first := (legacy, notified);
    SecondQueryIsSilent(reported, conn);
    legacy, notified := tracker.ShouldUseLegacyParticles(conn);
    second := (legacy, notified);
    ghost var queried := tracker.Entries();
    tracker.SetBrand(conn, None);
    tracker.SetClientModList(conn, None);
    ClearBothRemovesEntry(queried, conn);
    legacy, notified := tracker.ShouldUseLegacyParticles(conn);
    last := (legacy, notified);
  }
}
