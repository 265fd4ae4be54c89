/**
 * `collectCurrentNames`: dynamic registration. The worker claims its id key with
 * a compare-and-set, publishes its name, reads the roster of workers registered
 * so far into its table, and appends its own `name-id` entry to the roster.
 */
module DynamicNames {
  import opened Wrappers
  import opened Decimal
  import opened Strings
  import opened KvStore
  import opened Registry
  import opened Roster

  /** What one registration answers and the store it leaves behind. */
  datatype Registration = Registration(result: Result<map<string, int>, Error>, data: map<string, string>)

  /** The id key already holds a different, non-empty name, so the compare-and-set is refused. */
  predicate Claimed(data: map<string, string>, selfId: int, selfName: string) {
    IdKey(selfId) in data && data[IdKey(selfId)] != "" && data[IdKey(selfId)] != selfName
  }

  /**
   * The registration as one transition of the store, step for step. A successful
   * registration's table binds the worker's own name to its id; the store only
   * gains keys, and only the id key and the roster.
   */
  function Register(data: map<string, string>, selfId: int, selfName: string): (g: Registration)
    ensures g.result.Success? ==> selfName in g.result.value && g.result.value[selfName] == selfId
  {
    var key := IdKey(selfId);
    var reply := CompareSetReply(data, key, "", selfName);
    var claimed := if Swaps(data, key, "") then data[key := selfName] else data;
    if reply != selfName then
      Registration(Failure(IdAlreadyClaimed(selfId, reply)), claimed)
    else
      var published := claimed[key := selfName];
      var self := map[selfName := selfId];
      var entry := EntryText(selfName, selfId);
      if RosterKey !in published then
        Registration(Success(self), published[RosterKey := entry])
      else
        var roster := published[RosterKey];
        match Absorb(self, Split(roster, ","))
        case Failure(e) => Registration(Failure(e), published)
        case Success(table) => Registration(Success(table), published[RosterKey := roster + "," + entry])
  }

  /**
   * The compare-and-set decides: the registration is refused exactly when the id
   * key holds another non-empty name, and then nothing changes; otherwise the id
   * key ends up holding this worker's name. No key other than the id key and the
   * roster is touched.
   */
  lemma RegisterClaim(data: map<string, string>, selfId: int, selfName: string)
    ensures var g := Register(data, selfId, selfName);
      && (Claimed(data, selfId, selfName) <==> g.result.Failure? && g.result.error.IdAlreadyClaimed?)
      && (Claimed(data, selfId, selfName) ==>
            g.data == data && g.result.error.holder == data[IdKey(selfId)])
      && (!Claimed(data, selfId, selfName) ==>
            IdKey(selfId) in g.data && g.data[IdKey(selfId)] == selfName)
      && g.data.Keys <= data.Keys + {IdKey(selfId), RosterKey}
      && forall k :: k in data && k != IdKey(selfId) && k != RosterKey ==> k in g.data && g.data[k] == data[k]
  {
    IdKeysDistinct(selfId, selfId);
    var roster := if RosterKey in data then data[RosterKey] else "";
    AbsorbFailures(map[selfName := selfId], Split(roster, ","));
  }

  /**
   * The roster read: a fresh worker finds no roster and gets the table of itself,
   * or parses the roster into the table of itself and the listed workers. A
   * successful registration appends its `name-id` entry; a failed one leaves the
   * roster as it was.
   */
  lemma RegisterRoster(data: map<string, string>, selfId: int, selfName: string)
    ensures var g := Register(data, selfId, selfName);
      && (!Claimed(data, selfId, selfName) && RosterKey !in data ==>
            g.result == Success(map[selfName := selfId]))
      && (!Claimed(data, selfId, selfName) && RosterKey in data ==>
            g.result == Absorb(map[selfName := selfId], Split(data[RosterKey], ",")))
      && (g.result.Success? ==> selfName in g.result.value && g.result.value[selfName] == selfId)
      && (RosterKey in data ==> RosterKey in g.data && data[RosterKey] <= g.data[RosterKey])
      && (g.result.Success? ==>
            RosterKey in g.data &&
            g.data[RosterKey] == (if RosterKey in data then data[RosterKey] + "," else "")
                                 + EntryText(selfName, selfId))
      && (g.result.Failure? ==>
            (RosterKey in g.data <==> RosterKey in data) &&
            (RosterKey in data ==> g.data[RosterKey] == data[RosterKey]))
  {
    IdKeysDistinct(selfId, selfId);
    if RosterKey in data {
      AbsorbSpec(map[selfName := selfId], Split(data[RosterKey], ","));
    }
  }

  method CollectCurrentNames(store: Store, selfId: int, selfName: string)
    returns (r: Result<map<string, int>, Error>)
    modifies store
    ensures Registration(r, store.data) == Register(old(store.data), selfId, selfName)
  {
    var key := IdKey(selfId);
    var reply := store.CompareSet(key, "", selfName);
    if reply != selfName {
      return Failure(IdAlreadyClaimed(selfId, reply));
    }
    store.Set(key, selfName);
    var nameToId := map[selfName := selfId];
    var available := store.Check([RosterKey]);
    assert available <==> RosterKey in store.data by {
      assert [RosterKey][0] == RosterKey;
    }
    var roster: string;
    if available {
      roster := store.Get(RosterKey);
      ghost var published := store.data;
      var entries := SplitString(roster, ",");
      var i := 0;
      while i < |entries|
        invariant 0 <= i <= |entries|
        invariant store.data == published
        invariant Absorb(nameToId, entries[i..]) == Absorb(map[selfName := selfId], entries)
      {
        var entry := entries[i];
        AbsorbAt(nameToId, entries, i);
        var parts := SplitString(entry, "-");
        if |parts| < 2 {
          return Failure(MalformedEntry(entry));
        }
        var name := parts[0];
        var parsed := ParseInt(parts[1]);
        if parsed.None? {
          return Failure(MalformedEntry(entry));
        }
        if name in nameToId {
          return Failure(DuplicateName(name, nameToId[name], parsed.value));
        }
        nameToId := nameToId[name := parsed.value];
        i := i + 1;
      }
      roster := roster + "," + EntryText(selfName, selfId);
    } else {
      roster := EntryText(selfName, selfId);
    }
    store.Set(RosterKey, roster);
    r := Success(nameToId);
  }

  /** `Absorb` from entry `i` on reads entry `i`, then goes on from entry `i + 1`. */
  lemma AbsorbAt(table: map<string, int>, texts: seq<string>, i: nat)
    requires i < |texts|
    ensures var parsed := ParseEntry(texts[i]);
      Absorb(table, texts[i..]) ==
        if parsed.Failure? then Failure(parsed.error)
        else if parsed.value.0 in table then
          Failure(DuplicateName(parsed.value.0, table[parsed.value.0], parsed.value.1))
        else Absorb(table[parsed.value.0 := parsed.value.1], texts[i + 1..])
  {
    assert texts[i..][0] == texts[i] && texts[i..][1..] == texts[i + 1..];
  }

  /** The store after `workers` registered one after another, in order. */
  function RegisterAll(data: map<string, string>, workers: seq<(string, int)>): map<string, string>
    decreases |workers|
  {
    if workers == [] then data
    else
      var last := workers[|workers| - 1];
      Register(RegisterAll(data, workers[..|workers| - 1]), last.1, last.0).data
  }

  /** Writable entries with pairwise distinct names and pairwise distinct ids. */
  ghost predicate Registrable(workers: seq<(string, int)>) {
    && (forall i :: 0 <= i < |workers| ==> Writable(workers[i]))
    && (forall i, j :: 0 <= i < j < |workers| ==>
          workers[i].0 != workers[j].0 && workers[i].1 != workers[j].1)
  }

  /** A store on which none of `workers` has registered and no roster exists. */
  ghost predicate Unregistered(data: map<string, string>, workers: seq<(string, int)>) {
    RosterKey !in data && forall i :: 0 <= i < |workers| ==> IdKey(workers[i].1) !in data
  }

  function IdKeys(workers: seq<(string, int)>): set<string> {
    set w | w in workers :: IdKey(w.1)
  }

  /**
   * Workers registering strictly one after another leave the roster listing all
   * of them in order, and each one's id key holding its name.
   */
  lemma {:induction false} SequentialRegistration(data: map<string, string>, workers: seq<(string, int)>)
    requires Registrable(workers) && Unregistered(data, workers)
    ensures var after := RegisterAll(data, workers);
      && (workers == [] ==> RosterKey !in after)
      && (workers != [] ==> RosterKey in after && after[RosterKey] == FormatRoster(workers))
      && (forall i :: 0 <= i < |workers| ==>
            IdKey(workers[i].1) in after && after[IdKey(workers[i].1)] == workers[i].0)
      && after.Keys <= data.Keys + IdKeys(workers) + {RosterKey}
    decreases |workers|, 1
  {
    if workers != [] {
      var n := |workers| - 1;
      PrefixRegistrable(data, workers, n);
      SequentialRegistration(data, workers[..n]);
      RegistrationSeesEarlier(data, workers, n);
      RegistrationStep(data, workers);
    }
  }

  /** The last registration extends the roster and the id keys left by the earlier ones. */
  lemma RegistrationStep(data: map<string, string>, workers: seq<(string, int)>)
    requires Registrable(workers) && Unregistered(data, workers) && workers != []
    requires var prefix := workers[..|workers| - 1];
      var before := RegisterAll(data, prefix);
      && (prefix == [] ==> RosterKey !in before)
      && (prefix != [] ==> RosterKey in before && before[RosterKey] == FormatRoster(prefix))
      && (forall i :: 0 <= i < |prefix| ==>
            IdKey(prefix[i].1) in before && before[IdKey(prefix[i].1)] == prefix[i].0)
      && before.Keys <= data.Keys + IdKeys(prefix) + {RosterKey}
      && Register(before, workers[|workers| - 1].1, workers[|workers| - 1].0).result.Success?
    ensures var after := RegisterAll(data, workers);
      && RosterKey in after && after[RosterKey] == FormatRoster(workers)
      && (forall i :: 0 <= i < |workers| ==>
            IdKey(workers[i].1) in after && after[IdKey(workers[i].1)] == workers[i].0)
      && after.Keys <= data.Keys + IdKeys(workers) + {RosterKey}
  {
    var n := |workers| - 1;
    var prefix, last := workers[..n], workers[n];
    var before := RegisterAll(data, prefix);
    assert RegisterAll(data, workers) == Register(before, last.1, last.0).data;
    TakeNext(workers, n);
    assert workers == prefix + [last];
    RosterStep(before, prefix, last);
    forall i | 0 <= i < n ensures prefix[i].1 != last.1 {
      assert prefix[i] == workers[i];
    }
    IdKeysStep(data, before, prefix, last);
  }

  /** A successful registration after `entries` leaves the roster of `entries` and itself. */
  lemma RosterStep(before: map<string, string>, entries: seq<(string, int)>, self: (string, int))
    requires entries == [] ==> RosterKey !in before
    requires entries != [] ==> RosterKey in before && before[RosterKey] == FormatRoster(entries)
    requires Register(before, self.1, self.0).result.Success?
    ensures var after := Register(before, self.1, self.0).data;
      RosterKey in after && after[RosterKey] == FormatRoster(entries + [self])
  {
    var after := Register(before, self.1, self.0).data;
    var entry := EntryText(self.0, self.1);
    RegisterRoster(before, self.1, self.0);
    assert after[RosterKey] == (if RosterKey in before then before[RosterKey] + "," else "") + entry;
    if entries != [] {
      RosterAppend(entries, self);
    } else {
      assert EntryTexts([self]) == [entry];
    }
  }

  /** A successful registration publishes its id key and keeps the earlier ones. */
  lemma IdKeysStep(data: map<string, string>, before: map<string, string>,
                   entries: seq<(string, int)>, self: (string, int))
    requires forall i :: 0 <= i < |entries| ==> entries[i].1 != self.1
    requires forall i :: 0 <= i < |entries| ==>
               IdKey(entries[i].1) in before && before[IdKey(entries[i].1)] == entries[i].0
    requires before.Keys <= data.Keys + IdKeys(entries) + {RosterKey}
    requires Register(before, self.1, self.0).result.Success?
    ensures var after := Register(before, self.1, self.0).data;
      && (forall i :: 0 <= i < |entries + [self]| ==>
            IdKey((entries + [self])[i].1) in after &&
            after[IdKey((entries + [self])[i].1)] == (entries + [self])[i].0)
      && after.Keys <= data.Keys + IdKeys(entries + [self]) + {RosterKey}
  {
    var after := Register(before, self.1, self.0).data;
    var pairs := entries + [self];
    IdKeysDistinct(self.1, self.1);
    forall i | 0 <= i < |pairs|
      ensures IdKey(pairs[i].1) in after && after[IdKey(pairs[i].1)] == pairs[i].0
    {
      if i < |entries| {
        assert pairs[i] == entries[i];
        IdKeysDistinct(entries[i].1, self.1);
      } else {
        assert pairs[i] == self;
      }
    }
    assert IdKeys(pairs) == IdKeys(entries) + {IdKey(self.1)};
  }

  lemma PrefixRegistrable(data: map<string, string>, workers: seq<(string, int)>, k: nat)
    requires Registrable(workers) && Unregistered(data, workers) && k <= |workers|
    ensures Registrable(workers[..k]) && Unregistered(data, workers[..k])
  {
  }

  /**
   * The k-th of those workers succeeds, and its table holds exactly itself and
   * every worker registered before it.
   */
  lemma {:induction false} RegistrationSeesEarlier(data: map<string, string>, workers: seq<(string, int)>, k: nat)
    requires Registrable(workers) && Unregistered(data, workers)
    requires k < |workers|
    ensures var g := Register(RegisterAll(data, workers[..k]), workers[k].1, workers[k].0);
      g.result.Success? && TableOf(g.result.value, workers[..k + 1])
    decreases k + 1, 0
  {
    var prefix, self := workers[..k], workers[k];
    PrefixRegistrable(data, workers, k);
    SequentialRegistration(data, prefix);
    var before := RegisterAll(data, prefix);
    NotYetClaimed(data, workers, k, before);
    TakeNext(workers, k);
    NewcomerRegisters(before, prefix, self);
  }

  /** Before the k-th worker registers, nothing holds its id key. */
  lemma NotYetClaimed(data: map<string, string>, workers: seq<(string, int)>, k: nat, before: map<string, string>)
    requires Registrable(workers) && Unregistered(data, workers) && k < |workers|
    requires before.Keys <= data.Keys + IdKeys(workers[..k]) + {RosterKey}
    ensures IdKey(workers[k].1) !in before
  {
    var self := workers[k];
    IdKeysDistinct(self.1, self.1);
    forall w | w in workers[..k] ensures IdKey(w.1) != IdKey(self.1) {
      var i :| 0 <= i < k && workers[..k][i] == w;
      IdKeysDistinct(w.1, self.1);
    }
  }

  /**
   * A worker whose id key is free, registering after the roster of `entries` was
   * written, succeeds with the table of those entries and itself.
   */
  lemma NewcomerRegisters(before: map<string, string>, entries: seq<(string, int)>, self: (string, int))
    requires Registrable(entries + [self]) && IdKey(self.1) !in before
    requires entries == [] ==> RosterKey !in before
    requires entries != [] ==> RosterKey in before && before[RosterKey] == FormatRoster(entries)
    ensures var g := Register(before, self.1, self.0);
      g.result.Success? && TableOf(g.result.value, entries + [self])
  {
    RegisterClaim(before, self.1, self.0);
    RegisterRoster(before, self.1, self.0);
    if entries == [] {
      assert Names([self]) == {self.0};
      assert entries + [self] == [self];
    } else {
      NewcomerTable(entries, self);
    }
  }

  /**
   * A newcomer reading a roster of writable, distinctly named entries that do not
   * carry its name gets the table of those entries and itself.
   */
  lemma NewcomerTable(entries: seq<(string, int)>, self: (string, int))
    requires entries != [] && Registrable(entries + [self])
    ensures var r := Absorb(map[self.0 := self.1], Split(FormatRoster(entries), ","));
      r.Success? && TableOf(r.value, entries + [self])
  {
    var table := map[self.0 := self.1];
    NewcomerFresh(entries, self);
    RosterRoundTrip(entries);
    AbsorbSpec(table, EntryTexts(entries));
    var m := Absorb(table, EntryTexts(entries)).value;
    NewcomerExtends(m, entries, self);
  }

  /** The roster's entries are writable and their names are new to the newcomer's table. */
  lemma NewcomerFresh(entries: seq<(string, int)>, self: (string, int))
    requires Registrable(entries + [self])
    ensures forall i :: 0 <= i < |entries| ==> Writable(entries[i])
    ensures FreshNames(map[self.0 := self.1], entries)
  {
    var pairs := entries + [self];
    forall i | 0 <= i < |entries| ensures Writable(entries[i]) && entries[i].0 != self.0 {
      assert pairs[i] == entries[i] && pairs[|entries|] == self;
    }
    forall i, j | 0 <= i < j < |entries| ensures entries[i].0 != entries[j].0 {
      assert pairs[i] == entries[i] && pairs[j] == entries[j];
    }
  }

  /** The newcomer's table extended by the roster is the table of the roster and the newcomer. */
  lemma NewcomerExtends(m: map<string, int>, entries: seq<(string, int)>, self: (string, int))
    requires Extends(m, map[self.0 := self.1], entries)
    ensures TableOf(m, entries + [self])
  {
    var pairs := entries + [self];
    NamesAppend(entries, self);
    forall i | 0 <= i < |pairs| ensures m[pairs[i].0] == pairs[i].1 {
      if i < |entries| { assert pairs[i] == entries[i]; }
    }
  }

  lemma TakeNext<T>(s: seq<T>, k: nat)
    requires k < |s|
    ensures s[..k + 1] == s[..k] + [s[k]]
  {
  }

  lemma NamesAppend(pairs: seq<(string, int)>, p: (string, int))
    ensures Names(pairs + [p]) == Names(pairs) + {p.0}
  {
    forall n | n in Names(pairs + [p]) ensures n in Names(pairs) + {p.0} {
      var q :| q in pairs + [p] && q.0 == n;
    }
    forall n | n in Names(pairs) ensures n in Names(pairs + [p]) {
      var q :| q in pairs && q.0 == n;
      assert q in pairs + [p];
    }
  }

  /**
   * Once those workers are registered, another worker claiming one of their ids
   * under a different name is refused and the store, roster included, is left as it was.
   */
  lemma ReusedIdRejected(data: map<string, string>, workers: seq<(string, int)>, i: nat, name: string)
    requires Registrable(workers) && Unregistered(data, workers)
    requires i < |workers| && workers[i].0 != "" && name != workers[i].0
    ensures var after := RegisterAll(data, workers);
      Register(after, workers[i].1, name) ==
        Registration(Failure(IdAlreadyClaimed(workers[i].1, workers[i].0)), after)
  {
    SequentialRegistration(data, workers);
  }

  /**
   * Once those workers are registered, a newcomer with a fresh id but a name
   * already on the roster is refused for the repeated name; the roster is untouched,
   * but the id key it claimed stays claimed under its name.
   */
  lemma ReusedNameRejected(data: map<string, string>, workers: seq<(string, int)>, i: nat, id: int)
    requires Registrable(workers) && Unregistered(data, workers)
    requires i < |workers|
    requires IdKey(id) !in data && forall j :: 0 <= j < |workers| ==> workers[j].1 != id
    ensures var after := RegisterAll(data, workers);
      var g := Register(after, id, workers[i].0);
      && g.result == Failure(DuplicateName(workers[i].0, id, workers[i].1))
      && g.data == after[IdKey(id) := workers[i].0]
  {
    SequentialRegistration(data, workers);
    var after := RegisterAll(data, workers);
    FreshIdUnclaimed(data, workers, after, id);
    RosterNameRepeated(workers, i, id);
    RosterRefusal(after, id, workers[i].0);
  }

  /**
   * A worker whose fresh id key is free but whose name the roster rejects claims
   * the id key, reports the roster's error and leaves the roster as it was.
   */
  lemma RosterRefusal(data: map<string, string>, id: int, name: string)
    requires IdKey(id) !in data && RosterKey in data
    requires Absorb(map[name := id], Split(data[RosterKey], ",")).Failure?
    ensures Register(data, id, name) ==
      Registration(Failure(Absorb(map[name := id], Split(data[RosterKey], ",")).error), data[IdKey(id) := name])
  {
    IdKeysDistinct(id, id);
    assert data[IdKey(id) := name][RosterKey] == data[RosterKey];
  }

  lemma FreshIdUnclaimed(data: map<string, string>, workers: seq<(string, int)>, after: map<string, string>, id: int)
    requires IdKey(id) !in data && forall j :: 0 <= j < |workers| ==> workers[j].1 != id
    requires after.Keys <= data.Keys + IdKeys(workers) + {RosterKey}
    ensures IdKey(id) !in after
  {
    IdKeysDistinct(id, id);
    forall w | w in workers ensures IdKey(w.1) != IdKey(id) {
      IdKeysDistinct(w.1, id);
    }
  }

  /**
   * Reading a roster that already lists `workers[i]`'s name, with that name bound
   * to `id`, stops at that name and reports both ids.
   */
  lemma RosterNameRepeated(workers: seq<(string, int)>, i: nat, id: int)
    requires Registrable(workers) && i < |workers|
    ensures Absorb(map[workers[i].0 := id], Split(FormatRoster(workers), ",")) ==
            Failure(DuplicateName(workers[i].0, id, workers[i].1))
  {
    var self, texts := map[workers[i].0 := id], EntryTexts(workers);
    RosterRoundTrip(workers);
    AbsorbSpec(self, texts);
    ParseAllTexts(workers);
    AbsorbFailures(self, texts);
    var e := Absorb(self, texts).error;
    RepeatIsSelf(workers, i, id, e.name, e.firstId, e.secondId);
  }

  /** In a roster of distinct names, the only repeat of `workers[i]`'s name is that entry itself. */
  lemma RepeatIsSelf(workers: seq<(string, int)>, i: nat, id: int, name: string, firstId: int, secondId: int)
    requires Registrable(workers) && i < |workers|
    requires RepeatedAt(map[workers[i].0 := id], EntryTexts(workers), name, firstId, secondId)
    ensures name == workers[i].0 && firstId == id && secondId == workers[i].1
  {
    var self, texts := map[workers[i].0 := id], EntryTexts(workers);
    var k :| 0 <= k < |texts| && ParseEntry(texts[k]) == Success((name, secondId)) &&
      ((name in self && self[name] == firstId) ||
       exists j :: 0 <= j < k && ParseEntry(texts[j]) == Success((name, firstId)));
    EntryRoundTrip(workers[k]);
    assert workers[k] == (name, secondId);
    forall j | 0 <= j < k ensures ParseEntry(texts[j]) != Success((name, firstId)) {
      EntryRoundTrip(workers[j]);
    }
    assert name == workers[i].0 && firstId == id;
    assert k == i;
  }
}
