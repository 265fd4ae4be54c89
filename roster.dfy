/**
 * The roster of the dynamic variant: one store value listing `name-id` entries
 * separated by commas, parsed entry by entry into the name table.
 */
module Roster {
  import opened Wrappers
  import opened Decimal
  import opened Strings
  import opened Registry

  /** One roster entry, `name-id`. */
  function EntryText(name: string, id: int): string {
    name + "-" + IntToString(id)
  }

  function EntryTexts(entries: seq<(string, int)>): (texts: seq<string>)
    ensures |texts| == |entries|
  {
    seq(|entries|, i requires 0 <= i < |entries| => EntryText(entries[i].0, entries[i].1))
  }

  /** The roster listing `entries` in order. */
  function FormatRoster(entries: seq<(string, int)>): string {
    Join(EntryTexts(entries), ",")
  }

  /**
   * Reading one entry: the text before the first `-` is the name, the field after
   * it the id. A missing field or an id that is not decimal text is malformed.
   */
  function ParseEntry(entry: string): (r: Result<(string, int), Error>)
    ensures r.Failure? ==> r.error == MalformedEntry(entry)
    ensures r.Success? ==> '-' !in r.value.0 && r.value.0 + "-" <= entry
  {
    var parts := Split(entry, "-");
    if |parts| < 2 then Failure(MalformedEntry(entry))
    else match ParseInt(parts[1])
      case None => Failure(MalformedEntry(entry))
      case Some(id) =>
        SplitFirst(entry, "-");
        ContainsChar(parts[0], '-');
        Success((parts[0], id))
  }

  /** Reading every entry, stopping at the first malformed one. */
  function ParseAll(texts: seq<string>): Result<seq<(string, int)>, Error> {
    if texts == [] then Success([])
    else match ParseEntry(texts[0])
      case Failure(e) => Failure(e)
      case Success(p) =>
        match ParseAll(texts[1..])
        case Failure(e) => Failure(e)
        case Success(ps) => Success([p] + ps)
  }

  /**
   * The parse loop of `collectCurrentNames`: entries are read in order and added
   * to the table; the first malformed entry or already-present name stops it.
   */
  function Absorb(table: map<string, int>, texts: seq<string>): (r: Result<map<string, int>, Error>)
    ensures r.Success? ==> forall k :: k in table ==> k in r.value && r.value[k] == table[k]
    ensures r.Failure? ==> r.error.MalformedEntry? || r.error.DuplicateName?
    decreases |texts|
  {
    if texts == [] then Success(table)
    else match ParseEntry(texts[0])
      case Failure(e) => Failure(e)
      case Success(p) =>
        if p.0 in table then Failure(DuplicateName(p.0, table[p.0], p.1))
        else Absorb(table[p.0 := p.1], texts[1..])
  }

  /** A name and id the roster can carry: no separator in the name, a non-negative id. */
  predicate Writable(entry: (string, int)) {
    ',' !in entry.0 && '-' !in entry.0 && entry.1 >= 0
  }

  function Names(pairs: seq<(string, int)>): set<string> {
    set p | p in pairs :: p.0
  }

  /** No name of `pairs` is in `table`, and no name repeats within `pairs`. */
  ghost predicate FreshNames(table: map<string, int>, pairs: seq<(string, int)>) {
    && (forall i :: 0 <= i < |pairs| ==> pairs[i].0 !in table)
    && (forall i, j :: 0 <= i < j < |pairs| ==> pairs[i].0 != pairs[j].0)
  }

  /** `m` is `table` with every pair of `pairs` added. */
  ghost predicate Extends(m: map<string, int>, table: map<string, int>, pairs: seq<(string, int)>) {
    && m.Keys == table.Keys + Names(pairs)
    && (forall k :: k in table ==> m[k] == table[k])
    && (forall i :: 0 <= i < |pairs| ==> m[pairs[i].0] == pairs[i].1)
  }

  /** An entry written from a writable name and id reads back as that name and id. */
  lemma EntryRoundTrip(entry: (string, int))
    requires Writable(entry)
    ensures ParseEntry(EntryText(entry.0, entry.1)) == Success(entry)
  {
    var (name, id) := entry;
    var digits := IntToString(id);
    ContainsChar(name, '-');
    ContainsChar(digits, '-');
    SplitJoin([name, digits], "-");
    assert Join([name, digits], "-") == EntryText(name, id);
    IntRoundTrip(id);
  }

  /** Writable entries never contain the entry separator. */
  lemma EntryHasNoComma(entry: (string, int))
    requires Writable(entry)
    ensures !Contains(EntryText(entry.0, entry.1), ",")
  {
    var digits := IntToString(entry.1);
    forall i | 0 <= i < |digits| ensures digits[i] != ',' {
      assert IsDigit(digits[i]);
    }
    ContainsChar(EntryText(entry.0, entry.1), ',');
  }

  lemma {:induction false} ParseAllTexts(entries: seq<(string, int)>)
    requires forall i :: 0 <= i < |entries| ==> Writable(entries[i])
    ensures ParseAll(EntryTexts(entries)) == Success(entries)
    decreases |entries|
  {
    if entries != [] {
      EntryTextsCons(entries);
      EntryRoundTrip(entries[0]);
      ParseAllTexts(entries[1..]);
      ParseAllCons(EntryTexts(entries), entries[0], entries[1..]);
      assert [entries[0]] + entries[1..] == entries;
    }
  }

  lemma EntryTextsCons(entries: seq<(string, int)>)
    requires entries != []
    ensures EntryTexts(entries)[0] == EntryText(entries[0].0, entries[0].1)
    ensures EntryTexts(entries)[1..] == EntryTexts(entries[1..])
  {
    var texts, rest := EntryTexts(entries), EntryTexts(entries[1..]);
    forall i | 0 <= i < |rest| ensures texts[1..][i] == rest[i] {
      assert entries[1..][i] == entries[i + 1];
    }
  }

  lemma ParseAllCons(texts: seq<string>, p: (string, int), ps: seq<(string, int)>)
    requires texts != [] && ParseEntry(texts[0]) == Success(p) && ParseAll(texts[1..]) == Success(ps)
    ensures ParseAll(texts) == Success([p] + ps)
  {
  }

  /** Parsing a roster written from writable entries gives back exactly those entries, in order. */
  lemma RosterRoundTrip(entries: seq<(string, int)>)
    requires |entries| > 0
    requires forall i :: 0 <= i < |entries| ==> Writable(entries[i])
    ensures Split(FormatRoster(entries), ",") == EntryTexts(entries)
    ensures ParseAll(Split(FormatRoster(entries), ",")) == Success(entries)
  {
    var texts := EntryTexts(entries);
    forall i | 0 <= i < |texts| ensures !Contains(texts[i], ",") {
      EntryHasNoComma(entries[i]);
    }
    SplitJoin(texts, ",");
    ParseAllTexts(entries);
  }

  /** Appending an entry to the roster text is appending it to the listed entries. */
  lemma RosterAppend(entries: seq<(string, int)>, entry: (string, int))
    requires |entries| > 0
    ensures FormatRoster(entries + [entry]) == FormatRoster(entries) + "," + EntryText(entry.0, entry.1)
  {
    assert EntryTexts(entries + [entry]) == EntryTexts(entries) + [EntryText(entry.0, entry.1)];
    JoinAppend(EntryTexts(entries), EntryText(entry.0, entry.1), ",");
  }

  /**
   * The parse loop succeeds exactly when every entry is well formed and every name
   * is new and unrepeated; it then adds every entry to the table.
   */
  lemma {:induction false} AbsorbSpec(table: map<string, int>, texts: seq<string>)
    ensures Absorb(table, texts).Success? <==>
              ParseAll(texts).Success? && FreshNames(table, ParseAll(texts).value)
    ensures Absorb(table, texts).Success? ==>
              Extends(Absorb(table, texts).value, table, ParseAll(texts).value)
    decreases |texts|
  {
    if texts != [] {
      match ParseEntry(texts[0])
      case Failure(e) =>
      case Success(p) =>
        var rest := texts[1..];
        if p.0 !in table {
          var next := table[p.0 := p.1];
          AbsorbSpec(next, rest);
          match ParseAll(rest)
          case Failure(e) =>
          case Success(ps) =>
            FreshStep(table, p, ps);
            if Absorb(next, rest).Success? {
              ExtendsStep(Absorb(next, rest).value, table, p, ps);
            }
        } else {
          assert ParseAll(texts).Success? ==> ParseAll(texts).value[0] == p;
        }
    }
  }

  /** The first `k` entries all read, and none of their names is in `table` or repeats. */
  ghost predicate CleanPrefix(table: map<string, int>, texts: seq<string>, k: int) {
    0 <= k <= |texts| && ParseAll(texts[..k]).Success? && FreshNames(table, ParseAll(texts[..k]).value)
  }

  /** `entry` is the first of `texts` the parse loop stops at, and it does not read as a name and an id. */
  ghost predicate MalformedAt(table: map<string, int>, texts: seq<string>, entry: string) {
    exists k :: 0 <= k < |texts| && CleanPrefix(table, texts, k) &&
      texts[k] == entry && ParseEntry(texts[k]).Failure?
  }

  /**
   * The first entry of `texts` the parse loop stops at reads as `name` with
   * `secondId`, while `name` is already bound to `firstId`, by `table` or by an
   * earlier entry.
   */
  ghost predicate RepeatedAt(table: map<string, int>, texts: seq<string>, name: string, firstId: int, secondId: int) {
    exists k :: 0 <= k < |texts| && CleanPrefix(table, texts, k) &&
      ParseEntry(texts[k]) == Success((name, secondId)) &&
      ((name in table && table[name] == firstId) ||
       exists j :: 0 <= j < k && ParseEntry(texts[j]) == Success((name, firstId)))
  }

  /**
   * What a failing parse loop reports, about the first entry it cannot take: a
   * malformed entry carries that entry's raw text; a repeated name carries the
   * entry's name and id together with the id the name was already bound to.
   * When every entry is well formed, a failure is a repeated name.
   */
  lemma {:induction false} AbsorbFailures(table: map<string, int>, texts: seq<string>)
    ensures var r := Absorb(table, texts);
      r.Failure? && r.error.MalformedEntry? ==> MalformedAt(table, texts, r.error.entry)
    ensures var r := Absorb(table, texts);
      r.Failure? && r.error.DuplicateName? ==>
        RepeatedAt(table, texts, r.error.name, r.error.firstId, r.error.secondId)
    ensures Absorb(table, texts).Failure? && ParseAll(texts).Success? ==>
              Absorb(table, texts).error.DuplicateName?
    decreases |texts|
  {
    if texts != [] {
      var r := Absorb(table, texts);
      CleanStart(table, texts);
      match ParseEntry(texts[0])
      case Failure(_) =>
        assert texts[0] == r.error.entry;
      case Success(p) =>
        if p.0 in table {
          assert ParseEntry(texts[0]) == Success((r.error.name, r.error.secondId));
        } else {
          var next, rest := table[p.0 := p.1], texts[1..];
          AbsorbFailures(next, rest);
          MalformedShift(table, texts, p);
          RepeatedShift(table, texts, p);
        }
    }
  }

  /** Nothing has been read before the first entry. */
  lemma CleanStart(table: map<string, int>, texts: seq<string>)
    ensures CleanPrefix(table, texts, 0)
  {
    assert texts[..0] == [];
  }

  /** A clean prefix of the later entries, after a first entry with a new name, is a clean prefix one longer. */
  lemma CleanShift(table: map<string, int>, texts: seq<string>, p: (string, int), k: int)
    requires texts != [] && ParseEntry(texts[0]) == Success(p) && p.0 !in table
    requires CleanPrefix(table[p.0 := p.1], texts[1..], k)
    ensures CleanPrefix(table, texts, k + 1)
  {
    var prefix := texts[..k + 1];
    var ps := ParseAll(texts[1..][..k]).value;
    assert prefix[0] == texts[0] && prefix[1..] == texts[1..][..k];
    ParseAllCons(prefix, p, ps);
    FreshStep(table, p, ps);
  }

  /** A malformed entry found after the first entry was added is one of the whole list. */
  lemma MalformedShift(table: map<string, int>, texts: seq<string>, p: (string, int))
    requires texts != [] && ParseEntry(texts[0]) == Success(p) && p.0 !in table
    requires var r := Absorb(table[p.0 := p.1], texts[1..]);
      r.Failure? && r.error.MalformedEntry? ==> MalformedAt(table[p.0 := p.1], texts[1..], r.error.entry)
    ensures var r := Absorb(table, texts);
      r.Failure? && r.error.MalformedEntry? ==> MalformedAt(table, texts, r.error.entry)
  {
    var next, rest := table[p.0 := p.1], texts[1..];
    var r := Absorb(next, rest);
    assert Absorb(table, texts) == r;
    if r.Failure? && r.error.MalformedEntry? {
      var k :| 0 <= k < |rest| && CleanPrefix(next, rest, k) &&
        rest[k] == r.error.entry && ParseEntry(rest[k]).Failure?;
      CleanShift(table, texts, p, k);
      assert texts[k + 1] == rest[k];
    }
  }

  /** A repeated name found after the first entry was added is one of the whole list. */
  lemma RepeatedShift(table: map<string, int>, texts: seq<string>, p: (string, int))
    requires texts != [] && ParseEntry(texts[0]) == Success(p) && p.0 !in table
    requires var r := Absorb(table[p.0 := p.1], texts[1..]);
      r.Failure? && r.error.DuplicateName? ==>
        RepeatedAt(table[p.0 := p.1], texts[1..], r.error.name, r.error.firstId, r.error.secondId)
    ensures var r := Absorb(table, texts);
      r.Failure? && r.error.DuplicateName? ==>
        RepeatedAt(table, texts, r.error.name, r.error.firstId, r.error.secondId)
  {
    var r := Absorb(table[p.0 := p.1], texts[1..]);
    assert Absorb(table, texts) == r;
    if r.Failure? && r.error.DuplicateName? {
      RepeatedCons(table, texts, p, r.error.name, r.error.firstId, r.error.secondId);
    }
  }

  /** A repeat among the later entries, against the table with the first entry added, is a repeat of the list. */
  lemma RepeatedCons(table: map<string, int>, texts: seq<string>, p: (string, int),
                     name: string, firstId: int, secondId: int)
    requires texts != [] && ParseEntry(texts[0]) == Success(p) && p.0 !in table
    requires RepeatedAt(table[p.0 := p.1], texts[1..], name, firstId, secondId)
    ensures RepeatedAt(table, texts, name, firstId, secondId)
  {
    var next, rest := table[p.0 := p.1], texts[1..];
    var k :| 0 <= k < |rest| && CleanPrefix(next, rest, k) &&
      ParseEntry(rest[k]) == Success((name, secondId)) &&
      ((name in next && next[name] == firstId) ||
       exists j :: 0 <= j < k && ParseEntry(rest[j]) == Success((name, firstId)));
    CleanShift(table, texts, p, k);
    assert texts[k + 1] == rest[k];
    BoundBefore(table, texts, p, name, firstId, k);
  }

  /** A binding the later entries find, by the extended table or an earlier entry, is one the whole list finds. */
  lemma BoundBefore(table: map<string, int>, texts: seq<string>, p: (string, int), name: string, firstId: int, k: nat)
    requires texts != [] && ParseEntry(texts[0]) == Success(p) && k < |texts| - 1
    requires var next := table[p.0 := p.1];
      (name in next && next[name] == firstId) ||
      exists j :: 0 <= j < k && ParseEntry(texts[1..][j]) == Success((name, firstId))
    ensures (name in table && table[name] == firstId) ||
            exists j :: 0 <= j < k + 1 && ParseEntry(texts[j]) == Success((name, firstId))
  {
    var next, rest := table[p.0 := p.1], texts[1..];
    if name in next && next[name] == firstId {
      if name == p.0 {
        assert ParseEntry(texts[0]) == Success((name, firstId));
      }
    } else {
      var j :| 0 <= j < k && ParseEntry(rest[j]) == Success((name, firstId));
      assert texts[j + 1] == rest[j];
    }
  }

  lemma FreshStep(table: map<string, int>, p: (string, int), ps: seq<(string, int)>)
    requires p.0 !in table
    ensures FreshNames(table[p.0 := p.1], ps) <==> FreshNames(table, [p] + ps)
  {
    var next, pairs := table[p.0 := p.1], [p] + ps;
    assert pairs[0] == p;
    if FreshNames(table, pairs) {
      forall i | 0 <= i < |ps| ensures ps[i].0 !in next {
        assert pairs[i + 1] == ps[i];
      }
      forall i, j | 0 <= i < j < |ps| ensures ps[i].0 != ps[j].0 {
        assert pairs[i + 1] == ps[i] && pairs[j + 1] == ps[j];
      }
    }
    if FreshNames(next, ps) {
      forall i | 0 <= i < |pairs| ensures pairs[i].0 !in table {
        if i > 0 { assert pairs[i] == ps[i - 1]; }
      }
      forall i, j | 0 <= i < j < |pairs| ensures pairs[i].0 != pairs[j].0 {
        assert pairs[j] == ps[j - 1];
        if i > 0 { assert pairs[i] == ps[i - 1]; }
      }
    }
  }

  lemma NamesCons(p: (string, int), ps: seq<(string, int)>)
    ensures Names([p] + ps) == {p.0} + Names(ps)
  {
    var pairs := [p] + ps;
    forall n | n in Names(pairs) ensures n in {p.0} + Names(ps) {
      var q :| q in pairs && q.0 == n;
    }
    forall n | n in Names(ps) ensures n in Names(pairs) {
      var q :| q in ps && q.0 == n;
      assert q in pairs;
    }
  }

  lemma ExtendsStep(m: map<string, int>, table: map<string, int>, p: (string, int), ps: seq<(string, int)>)
    requires p.0 !in table
    requires Extends(m, table[p.0 := p.1], ps)
    ensures Extends(m, table, [p] + ps)
  {
    var pairs := [p] + ps;
    NamesCons(p, ps);
    forall i | 0 <= i < |pairs| ensures m[pairs[i].0] == pairs[i].1 {
      if i > 0 { assert pairs[i] == ps[i - 1]; }
    }
  }

  /** `m` is exactly the table of `pairs`. */
  ghost predicate TableOf(m: map<string, int>, pairs: seq<(string, int)>) {
    m.Keys == Names(pairs) && forall i :: 0 <= i < |pairs| ==> m[pairs[i].0] == pairs[i].1
  }
}
