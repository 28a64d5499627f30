/**
  * CISettingsGeneric<T>: an ordered list of rules for one importer category, the lookups
  * over it, the first-match preset selection, priority sorting, the ID book-keeping of
  * OnValidate, and the two bulk userData edits of CISettingsParent.
  */
module Settings {
  import opened Wrappers
  import opened Lists
  import opened Strings
  import opened Host
  import opened Rules
  import opened Markers

  // ---------------------------------------------------------------------------
  // Splitting an asset path into its directory part and its file part

  /**
    * `path` is everything before the last '/' or '\\', `name` the rest, starting with that
    * separator. Without a separator, Substring(0, -1) throws.
    */
  function SplitPath(completePath: string): (r: Result<(string, string)>)
    ensures r.Failure? <==> forall i :: 0 <= i < |completePath| ==> !IsSeparator(completePath[i])
    ensures r.Failure? ==> r.error == ArgumentOutOfRange
    ensures r.Ok? ==> r.value.0 + r.value.1 == completePath
    ensures r.Ok? ==> |r.value.1| >= 1 && IsSeparator(r.value.1[0])
    ensures r.Ok? ==> forall j :: 1 <= j < |r.value.1| ==> !IsSeparator(r.value.1[j])
  {
    var k := LastSeparator(completePath);
    if k < 0 then Failure(ArgumentOutOfRange)
    else Ok((completePath[..k], completePath[k..]))
  }

  /** The split is the only one whose file part starts with the one separator it holds. */
  lemma SplitPathUnique(completePath: string, path: string, name: string)
    requires path + name == completePath && |name| >= 1 && IsSeparator(name[0])
    requires forall j :: 1 <= j < |name| ==> !IsSeparator(name[j])
    ensures SplitPath(completePath) == Ok((path, name))
  {
    var k := LastSeparator(completePath);
    assert completePath[|path|] == name[0];
    forall j | |path| < j < |completePath|
      ensures !IsSeparator(completePath[j])
    {
      assert completePath[j] == name[j - |path|];
    }
    assert k == |path|;
    assert completePath[..k] == path && completePath[k..] == name;
  }

  // ---------------------------------------------------------------------------
  // First-match selection (GetPresetByRule and its copies)

  predicate IsFirstMatch(rules: seq<Rule>, path: string, name: string, i: int) {
    0 <= i < |rules| && rules[i].TestCondition(path, name)
    && forall j :: 0 <= j < i ==> !rules[j].TestCondition(path, name)
  }

  predicate NoMatch(rules: seq<Rule>, path: string, name: string) {
    forall j :: 0 <= j < |rules| ==> !rules[j].TestCondition(path, name)
  }

  /**
    * The preset of the first rule, in list order, that accepts the asset; the importer's
    * default preset when none does (also for an empty list).
    */
  function SelectPreset(rules: seq<Rule>, completePath: string, defaultPreset: Option<Preset>)
    : (r: Result<Option<Preset>>)
    ensures SplitPath(completePath).Failure? ==> r == Failure(ArgumentOutOfRange)
    ensures var sp := SplitPath(completePath);
            sp.Ok? ==> forall i :: IsFirstMatch(rules, sp.value.0, sp.value.1, i) ==> r == Ok(rules[i].preset)
    ensures var sp := SplitPath(completePath);
            sp.Ok? && NoMatch(rules, sp.value.0, sp.value.1) ==> r == Ok(defaultPreset)
  {
    match SplitPath(completePath)
    case Failure(e) => Failure(e)
    case Ok((path, name)) =>
      match FirstIndex(rules, (x: Rule) => x.TestCondition(path, name))
      case Some(i) => Ok(rules[i].preset)
      case None => Ok(defaultPreset)
  }

  /**
    * Rules at the field initialisers never fire: the file part of a split path starts with a
    * separator, so it is never empty, and the importer's default preset is chosen.
    */
  lemma FreshRulesSelectDefault(rules: seq<Rule>, completePath: string, defaultPreset: Option<Preset>)
    requires forall i :: 0 <= i < |rules| ==> rules[i] == NewRule
    requires SplitPath(completePath).Ok?
    ensures SelectPreset(rules, completePath, defaultPreset) == Ok(defaultPreset)
  {
    var (path, name) := SplitPath(completePath).value;
    forall j | 0 <= j < |rules|
      ensures !rules[j].TestCondition(path, name)
    {
      NewRuleMatchesOnlyEmpty(path, name);
    }
    assert NoMatch(rules, path, name);
  }

  // ---------------------------------------------------------------------------
  // Keys of the List.Find lookups

  /** Find's test in GetPresetByName stops at `x`: by throwing on a null preset, or on a match. */
  predicate NameStop(x: Rule, name: string) {
    x.preset.None? || x.preset.value.name == name
  }

  /** Find's test in GetPresetByRuleID: the rule's ID prints as `id`. */
  predicate PrintsAs(x: Rule, id: string) {
    IntToString(x.id) == id
  }

  predicate Distinct(s: seq<int>) {
    forall i, j :: 0 <= i < j < |s| ==> s[i] != s[j]
  }

  // ---------------------------------------------------------------------------
  // Sorting by priority

  /** The intended comparison for SortByPriority: negative when `x` goes first. */
  function ComparePriority(x: Rule, y: Rule): (c: int)
    ensures c < 0 <==> x.priority > y.priority
    ensures c == 0 <==> x.priority == y.priority
  {
    y.priority - x.priority
  }

  predicate SortedByPriority(rs: seq<Rule>) {
    forall i, j :: 0 <= i < j < |rs| ==> rs[i].priority >= rs[j].priority
  }

  /** Inserts `x` into a list sorted by descending priority, before the first rule it does not follow. */
  function InsertByPriority(x: Rule, rs: seq<Rule>): (r: seq<Rule>)
    requires SortedByPriority(rs)
    ensures |r| == |rs| + 1 && (r[0] == x || (|rs| > 0 && r[0] == rs[0]))
    ensures SortedByPriority(r)
  {
    if rs == [] then [x]
    else if ComparePriority(x, rs[0]) <= 0 then [x] + rs
    else
      assert rs == [rs[0]] + rs[1..];
      [rs[0]] + InsertByPriority(x, rs[1..])
  }

  /** Insertion adds exactly `x`. */
  lemma {:induction false} InsertByPriorityPermutes(x: Rule, rs: seq<Rule>)
    requires SortedByPriority(rs)
    ensures multiset(InsertByPriority(x, rs)) == multiset(rs) + multiset{x}
  {
    if rs != [] && ComparePriority(x, rs[0]) > 0 {
      assert rs == [rs[0]] + rs[1..];
      InsertByPriorityPermutes(x, rs[1..]);
      assert InsertByPriority(x, rs) == [rs[0]] + InsertByPriority(x, rs[1..]);
    }
  }

  /** One ordering List.Sort may produce: high priority first. Stability is not promised. */
  function SortByPriorityDesc(rs: seq<Rule>): (r: seq<Rule>)
    ensures SortedByPriority(r)
    ensures multiset(r) == multiset(rs)
  {
    if rs == [] then []
    else
      assert rs == [rs[0]] + rs[1..];
      var sorted := SortByPriorityDesc(rs[1..]);
      InsertByPriorityPermutes(rs[0], sorted);
      InsertByPriority(rs[0], sorted)
  }

  // The comparison as written computes `y.PRIORITY - x.PRIORITY` in 32-bit arithmetic.

  const Int32Min: int := -0x8000_0000
  const Int32Max: int := 0x7fff_ffff

  predicate IsInt32(n: int) {
    Int32Min <= n <= Int32Max
  }

  /** Unchecked Int32 arithmetic: the value wraps around modulo 2^32. */
  function Wrap32(n: int): (w: int)
    ensures IsInt32(w)
    ensures IsInt32(n) ==> w == n
  {
    (n - Int32Min) % 0x1_0000_0000 + Int32Min
  }

  /** The comparison SortByPriority passes to List.Sort: `y.PRIORITY - x.PRIORITY` in unchecked Int32 arithmetic. */
  function CompareAsWritten(x: Rule, y: Rule): (c: int)
    requires IsInt32(x.priority) && IsInt32(y.priority)
    ensures IsInt32(c)
  {
    Wrap32(y.priority - x.priority)
  }

  /** Within Int32 range of the difference, the comparison as written agrees with the intended one. */
  lemma CompareAsWrittenAgrees(x: Rule, y: Rule)
    requires IsInt32(x.priority) && IsInt32(y.priority) && IsInt32(y.priority - x.priority)
    ensures CompareAsWritten(x, y) == ComparePriority(x, y)
  {
  }

  /** Priority Int32.MinValue against 1: the wrapped difference is negative, so the lower-priority rule goes first. */
  lemma CompareAsWrittenMisorders()
    ensures var low := NewRule.(priority := Int32Min);
            var high := NewRule.(priority := 1);
            CompareAsWritten(low, high) < 0 && ComparePriority(low, high) > 0
  {
  }

  // ---------------------------------------------------------------------------
  // OnValidate: IDs of newly added rules

  /** The rule's ID must be replaced: it is 0 or already listed. */
  predicate NeedsFreshId(x: Rule, listed: seq<int>) {
    x.id in listed || x.id == 0
  }

  /**
    * The growth loop of OnValidate: each pending rule, in order, is listed under its own ID,
    * or under the next ID from `supply` (the values CILinks.GetID returns) when it needs a fresh one.
    * Gives the new ID list and the pending rules as updated.
    */
  function Register(ids: seq<int>, pending: seq<Rule>, supply: seq<int>): (seq<int>, seq<Rule>)
    requires |supply| >= |pending|
    decreases |pending|
  {
    if pending == [] then (ids, [])
    else if NeedsFreshId(pending[0], ids) then
      var r := Register(ids + [supply[0]], pending[1..], supply[1..]);
      (r.0, [pending[0].(id := supply[0])] + r.1)
    else
      var r := Register(ids + [pending[0].id], pending[1..], supply);
      (r.0, [pending[0]] + r.1)
  }

  /**
    * The growth loop keeps one rule per pending rule, keeps the old ID entries, and lists
    * each pending rule's final ID after them, in order.
    */
  lemma {:induction false} RegisterExtends(ids: seq<int>, pending: seq<Rule>, supply: seq<int>)
    requires |supply| >= |pending|
    ensures var r := Register(ids, pending, supply);
            |r.0| == |ids| + |pending| && r.0[..|ids|] == ids && |r.1| == |pending| &&
            forall i :: 0 <= i < |pending| ==> r.0[|ids| + i] == r.1[i].id
    decreases |pending|
  {
    if pending != [] {
      RegisterStep(ids, pending, supply);
      var r := Register(ids, pending, supply);
      if NeedsFreshId(pending[0], ids) {
        RegisterExtends(ids + [supply[0]], pending[1..], supply[1..]);
        ExtendsByOne(ids, pending[0].(id := supply[0]), r.0, Register(ids + [supply[0]], pending[1..], supply[1..]).1);
      } else {
        RegisterExtends(ids + [pending[0].id], pending[1..], supply);
        ExtendsByOne(ids, pending[0], r.0, Register(ids + [pending[0].id], pending[1..], supply).1);
      }
    }
  }

  /** The inductive step of RegisterExtends, on plain sequences. */
  lemma ExtendsByOne(ids: seq<int>, y: Rule, r0: seq<int>, rest: seq<Rule>)
    requires |r0| == |ids| + 1 + |rest| && r0[..|ids| + 1] == ids + [y.id]
    requires forall i :: 0 <= i < |rest| ==> r0[|ids| + 1 + i] == rest[i].id
    ensures r0[..|ids|] == ids
    ensures forall i :: 0 <= i < |rest| + 1 ==> r0[|ids| + i] == ([y] + rest)[i].id
  {
    assert r0[..|ids|] == r0[..|ids| + 1][..|ids|];
    assert r0[|ids|] == r0[..|ids| + 1][|ids|];
    forall i | 1 <= i < |rest| + 1
      ensures r0[|ids| + i] == ([y] + rest)[i].id
    {
      assert r0[|ids| + 1 + (i - 1)] == rest[i - 1].id;
    }
  }

  /** One iteration of the growth loop. */
  lemma RegisterStep(ids: seq<int>, pending: seq<Rule>, supply: seq<int>)
    requires |supply| >= |pending| > 0
    ensures var r := Register(ids, pending, supply);
            NeedsFreshId(pending[0], ids) ==>
              var r' := Register(ids + [supply[0]], pending[1..], supply[1..]);
              r.0 == r'.0 && r.1 == [pending[0].(id := supply[0])] + r'.1
    ensures var r := Register(ids, pending, supply);
            !NeedsFreshId(pending[0], ids) ==>
              var r' := Register(ids + [pending[0].id], pending[1..], supply);
              r.0 == r'.0 && r.1 == [pending[0]] + r'.1
  {
  }

  /** One iteration of the growth loop, in terms of the rules already done and the final result. */
  lemma RegisterAdvance(listed: seq<int>, pending: seq<Rule>, supply: seq<int>, done: seq<Rule>,
                        target: (seq<int>, seq<Rule>))
    requires |supply| >= |pending| > 0
    requires Register(listed, pending, supply).0 == target.0
    requires done + Register(listed, pending, supply).1 == target.1
    ensures NeedsFreshId(pending[0], listed) ==>
              var r := Register(listed + [supply[0]], pending[1..], supply[1..]);
              r.0 == target.0 && (done + [pending[0].(id := supply[0])]) + r.1 == target.1
    ensures !NeedsFreshId(pending[0], listed) ==>
              var r := Register(listed + [pending[0].id], pending[1..], supply);
              r.0 == target.0 && (done + [pending[0]]) + r.1 == target.1
  {
    RegisterStep(listed, pending, supply);
  }

  /**
    * A pending rule keeps its ID unless it needs a fresh one, in which case the ID comes
    * from `supply`; nothing else in a rule changes.
    */
  lemma {:induction false} RegisterShape(ids: seq<int>, pending: seq<Rule>, supply: seq<int>)
    requires |supply| >= |pending|
    ensures var r := Register(ids, pending, supply);
            |r.0| == |ids| + |pending| && |r.1| == |pending| &&
            forall i :: 0 <= i < |pending| ==>
              r.1[i] == pending[i].(id := r.1[i].id) &&
              (NeedsFreshId(pending[i], r.0[..|ids| + i]) ==> r.1[i].id in supply) &&
              (!NeedsFreshId(pending[i], r.0[..|ids| + i]) ==> r.1[i] == pending[i])
    decreases |pending|
  {
    RegisterExtends(ids, pending, supply);
    if pending != [] {
      var x := pending[0];
      var ids' := if NeedsFreshId(x, ids) then ids + [supply[0]] else ids + [x.id];
      var supply' := if NeedsFreshId(x, ids) then supply[1..] else supply;
      RegisterShape(ids', pending[1..], supply');
      RegisterExtends(ids', pending[1..], supply');
      var r := Register(ids, pending, supply);
      var r' := Register(ids', pending[1..], supply');
      assert r.0 == r'.0 && r.1[1..] == r'.1;
      assert r.0[..|ids|] == ids;
      forall i | 1 <= i < |pending|
        ensures r.1[i] == pending[i].(id := r.1[i].id)
        ensures NeedsFreshId(pending[i], r.0[..|ids| + i]) ==> r.1[i].id in supply
        ensures !NeedsFreshId(pending[i], r.0[..|ids| + i]) ==> r.1[i] == pending[i]
      {
        assert pending[i] == pending[1..][i - 1];
        assert r.1[i] == r'.1[i - 1];
        assert r.0[..|ids| + i] == r'.0[..|ids'| + (i - 1)];
        if NeedsFreshId(x, ids) {
          assert forall v :: v in supply[1..] ==> v in supply;
        }
      }
    }
  }

  /**
    * Each value the growth loop draws from `supply` (one GetID call) is nonzero and not
    * yet in the ID list at the moment it is drawn.
    */
  predicate FreshDraws(ids: seq<int>, pending: seq<Rule>, supply: seq<int>)
    requires |supply| >= |pending|
    decreases |pending|
  {
    if pending == [] then true
    else if NeedsFreshId(pending[0], ids) then
      supply[0] != 0 && supply[0] !in ids && FreshDraws(ids + [supply[0]], pending[1..], supply[1..])
    else
      FreshDraws(ids + [pending[0].id], pending[1..], supply)
  }

  /**
    * OnValidate hands out unique IDs: with a duplicate-free ID list and GetID values that
    * are fresh when drawn, the new list is duplicate-free and every new entry is nonzero.
    */
  lemma {:induction false} RegisterUnique(ids: seq<int>, pending: seq<Rule>, supply: seq<int>)
    requires |supply| >= |pending| && Distinct(ids) && FreshDraws(ids, pending, supply)
    ensures var r := Register(ids, pending, supply);
            Distinct(r.0) && forall k :: |ids| <= k < |r.0| ==> r.0[k] != 0
    decreases |pending|
  {
    if pending != [] {
      var x := pending[0];
      var renew := NeedsFreshId(x, ids);
      var ids' := if renew then ids + [supply[0]] else ids + [x.id];
      var supply' := if renew then supply[1..] else supply;
      assert ids'[..|ids|] == ids;
      assert ids'[|ids|] != 0 && ids'[|ids|] !in ids;
      assert Distinct(ids');
      RegisterUnique(ids', pending[1..], supply');
      RegisterExtends(ids', pending[1..], supply');
      var r := Register(ids, pending, supply);
      assert r.0 == Register(ids', pending[1..], supply').0;
      assert r.0[|ids|] == r.0[..|ids'|][|ids|] == ids'[|ids|];
    }
  }

  /**
    * A new rule may already carry the ID GetID hands to an earlier new rule: the draws are
    * still fresh, and the later rule is given a fresh ID of its own.
    */
  lemma CollidingNewRuleIsRenumbered()
    ensures var pending := [NewRule, NewRule.(id := 5)];
            FreshDraws([], pending, [5, 6]) && Register([], pending, [5, 6]).0 == [5, 6]
  {
    var pending := [NewRule, NewRule.(id := 5)];
    var later := [NewRule.(id := 5)];
    assert pending[1..] == later && later[1..] == [];
    assert [5, 6][1..] == [6] && [6][1..] == [];
    assert [] + [5] == [5] && [5] + [6] == [5, 6];
    assert NeedsFreshId(pending[0], []);
    assert NeedsFreshId(later[0], [5]);
    assert Register([5, 6], [], []).0 == [5, 6];
    assert Register([5], later, [6]).0 == [5, 6];
  }


  /** The text OnValidate shows for a rule in the inspector. */
  function VisibleName(x: Rule): string {
    "Filter " + x.title + " | Priority : " + IntToString(x.priority) + " | ID : " + IntToString(x.id)
  }

  /** The rule with its caption recomputed. */
  function Captioned(x: Rule): Rule {
    x.(visibleName := VisibleName(x))
  }

  function Labelled(rs: seq<Rule>): seq<Rule> {
    seq(|rs|, i requires 0 <= i < |rs| => Captioned(rs[i]))
  }

  function IdsOf(rs: seq<Rule>): seq<int> {
    seq(|rs|, i requires 0 <= i < |rs| => rs[i].id)
  }

  // ---------------------------------------------------------------------------

  /** The rule type a settings object is instantiated with. */
  datatype RuleKind = TextureRules | ModelRules | AudioRules

  class CISettings {
    const kind: RuleKind
    var rules: seq<Rule>  // _L_rules
    var ids: seq<int>     // _Ll_ids
    var enabled: bool     // _b_enabled

    constructor (kind: RuleKind)
      ensures this.kind == kind && rules == [] && ids == [] && !enabled
    {
      this.kind := kind;
      rules := [];
      ids := [];
      enabled := false;
    }

    /** OnEnable: from now on OnValidate does its work. */
    method OnEnable()
      modifies this`enabled
      ensures enabled
    {
      enabled := true;
    }

    /**
      * The preset of the first rule whose preset is called `name`; a rule with a null
      * preset met before any match makes the lookup throw.
      */
    function GetPresetByName(name: string): (r: Result<Option<Preset>>)
      reads this
      ensures forall i ::
                (0 <= i < |rules| && NameStop(rules[i], name) && forall j :: 0 <= j < i ==> !NameStop(rules[j], name))
                ==> r == if rules[i].preset.None? then Failure(NullReference) else Ok(rules[i].preset)
      ensures (forall i :: 0 <= i < |rules| ==> !NameStop(rules[i], name)) ==> r == Ok(None)
      ensures r.Ok? && r.value.Some? ==> r.value.value.name == name
    {
      match FirstIndex(rules, (x: Rule) => NameStop(x, name))
      case None => Ok(None)
      case Some(i) => if rules[i].preset.None? then Failure(NullReference) else Ok(rules[i].preset)
    }

    /** The preset of the first rule whose ID prints as `id`, or null. */
    function GetPresetByRuleID(id: string): (r: Option<Preset>)
      reads this
      ensures forall i ::
                (0 <= i < |rules| && PrintsAs(rules[i], id)
                 && forall j :: 0 <= j < i ==> !PrintsAs(rules[j], id))
                ==> r == rules[i].preset
      ensures (forall i :: 0 <= i < |rules| ==> !PrintsAs(rules[i], id)) ==> r == None
    {
      match FirstIndex(rules, (x: Rule) => PrintsAs(x, id))
      case None => None
      case Some(i) => rules[i].preset
    }

    /** The printed ID of the first rule using `preset`, or null. */
    function GetRuleIDstringFromPreset(preset: Option<Preset>): (r: Option<string>)
      reads this
      ensures r.Some? ==> exists i ::
                0 <= i < |rules| && rules[i].preset == preset
                && (forall j :: 0 <= j < i ==> rules[j].preset != preset)
                && r.value == IntToString(rules[i].id)
      ensures r.None? <==> forall i :: 0 <= i < |rules| ==> rules[i].preset != preset
    {
      match FirstIndex(rules, (x: Rule) => x.preset == preset)
      case None => None
      case Some(i) => Some(IntToString(rules[i].id))
    }

    /** GetPresetByRule: the search loop with early return. */
    method GetPresetByRule(completePath: string, defaultPreset: Option<Preset>)
      returns (r: Result<Option<Preset>>)
      ensures r == SelectPreset(rules, completePath, defaultPreset)
    {
      var pathEnd := LastSeparator(completePath);
      if pathEnd < 0 {
        return Failure(ArgumentOutOfRange);
      }
      var path := completePath[..pathEnd];
      var name := completePath[pathEnd..];
      var i := 0;
      while i < |rules|
        invariant 0 <= i <= |rules|
        invariant forall j :: 0 <= j < i ==> !rules[j].TestCondition(path, name)
      {
        if rules[i].TestCondition(path, name) {
          assert IsFirstMatch(rules, path, name, i);
          return Ok(rules[i].preset);
        }
        i := i + 1;
      }
      assert NoMatch(rules, path, name);
      return Ok(defaultPreset);
    }

    /**
      * SortByPriority(mother): sorts the rules of `mother`, high priority first; the cast of
      * `mother` to this rule type yields null, and the call throws, when its rule type differs.
      */
    method SortByPriority(mother: CISettings) returns (thrown: Option<Error>)
      modifies mother`rules
      ensures mother.kind == kind ==> thrown == None
      ensures mother.kind == kind ==> SortedByPriority(mother.rules)
      ensures mother.kind == kind ==> multiset(mother.rules) == multiset(old(mother.rules))
      ensures mother.kind != kind ==> thrown == Some(NullReference) && mother.rules == old(mother.rules)
    {
      if mother.kind != kind {
        return Some(NullReference);
      }
      mother.rules := SortByPriorityDesc(mother.rules);
      return None;
    }

    /**
      * OnValidate: once enabled, lists the IDs of rules added since the last call (giving
      * fresh IDs from `supply` where needed), rebuilds the ID list when rules were removed,
      * and refreshes every rule's inspector caption.
      */
    method OnValidate(supply: seq<int>)
      requires |supply| >= |rules| - |ids|
      modifies this`rules, this`ids
      ensures !old(enabled) ==> rules == old(rules) && ids == old(ids)
      ensures old(enabled) && |old(ids)| < |old(rules)| ==>
                var r := Register(old(ids), old(rules)[|old(ids)|..], supply);
                ids == r.0 && rules == Labelled(old(rules)[..|old(ids)|] + r.1)
      ensures old(enabled) && |old(ids)| > |old(rules)| ==>
                ids == IdsOf(old(rules)) && rules == Labelled(old(rules))
      ensures old(enabled) && |old(ids)| == |old(rules)| ==>
                ids == old(ids) && rules == Labelled(old(rules))
    {
      if !enabled {
        return;
      }
      if |ids| < |rules| {
        RegisterNewRules(supply);
      } else if |ids| > |rules| {
        RebuildIds();
      }
      RefreshVisibleNames();
    }

    /** The growth loop of OnValidate, over the rules past the end of the ID list. */
    method RegisterNewRules(supply: seq<int>)
      requires |ids| < |rules| && |supply| >= |rules| - |ids|
      modifies this`rules, this`ids
      ensures var r := Register(old(ids), old(rules)[|old(ids)|..], supply);
              ids == r.0 && rules == old(rules)[..|old(ids)|] + r.1
    {
      var rs, listed, done := rules, ids, [];
      var start := |listed|;
      ghost var target := Register(listed, rs[start..], supply);
      var i, next := start, 0;
      while i < |rs|
        invariant start <= i <= |rs|
        invariant next <= i - start
        invariant Register(listed, rs[i..], supply[next..]).0 == target.0
        invariant done + Register(listed, rs[i..], supply[next..]).1 == target.1
      {
        var rule := rs[i];
        RegisterAdvance(listed, rs[i..], supply[next..], done, target);
        assert rs[i..][1..] == rs[i + 1..];
        if rule.id in listed || rule.id == 0 {
          var newId := supply[next];
          assert supply[next..][1..] == supply[next + 1..];
          next := next + 1;
          rule := rule.(id := newId);
          listed := listed + [newId];
        } else {
          listed := listed + [rule.id];
        }
        done := done + [rule];
        i := i + 1;
      }
      assert rs[i..] == [];
      ids, rules := listed, rs[..start] + done;
    }

    /** The shrink branch of OnValidate: the ID list is rebuilt from the rules. */
    method RebuildIds()
      modifies this`ids
      ensures ids == IdsOf(rules)
    {
      ids := [];
      var i := 0;
      while i < |rules|
        invariant 0 <= i <= |rules|
        invariant ids == IdsOf(rules[..i])
      {
        ids := ids + [rules[i].id];
        i := i + 1;
      }
      assert rules[..i] == rules;
    }

    /** The last loop of OnValidate: every rule's caption is recomputed. */
    method RefreshVisibleNames()
      modifies this`rules
      ensures rules == Labelled(old(rules))
    {
      ghost var target := Labelled(rules);
      var i := 0;
      while i < |rules|
        invariant 0 <= i <= |rules| == |target|
        invariant forall k :: 0 <= k < i ==> rules[k] == target[k]
        invariant forall k :: i <= k < |rules| ==> rules[k] == old(rules)[k]
      {
        assert target[i] == Captioned(rules[i]);
        rules := rules[i := Captioned(rules[i])];
        i := i + 1;
      }
      assert rules == target;
    }
  }

  /** Round trip of the ID lookups: with distinct IDs, a rule's printed ID finds its preset again. */
  lemma RuleIdRoundTrip(s: CISettings, p: Preset)
    requires Distinct(IdsOf(s.rules)) && s.GetRuleIDstringFromPreset(Some(p)).Some?
    ensures s.GetPresetByRuleID(s.GetRuleIDstringFromPreset(Some(p)).value) == Some(p)
  {
    var str := s.GetRuleIDstringFromPreset(Some(p)).value;
    var i :| 0 <= i < |s.rules| && s.rules[i].preset == Some(p)
             && (forall j :: 0 <= j < i ==> s.rules[j].preset != Some(p))
             && str == IntToString(s.rules[i].id);
    forall j | 0 <= j < i
      ensures !PrintsAs(s.rules[j], str)
    {
      assert IdsOf(s.rules)[j] == s.rules[j].id && IdsOf(s.rules)[i] == s.rules[i].id;
      if IntToString(s.rules[j].id) == str {
        IntToStringInjective(s.rules[j].id, s.rules[i].id);
      }
    }
  }

  // ---------------------------------------------------------------------------
  // CISettingsParent.ApplyNewPresets / ResetRule over the importers of the assets found

  /** Distinct assets have distinct importers. */
  predicate DistinctImporters(importers: seq<AssetImporter?>) {
    forall i, j :: 0 <= i < j < |importers| && importers[i] != null ==> importers[i] != importers[j]
  }

  /**
    * Re-applies `preset` to the assets of `rule` (all of them when forced, otherwise those
    * not flagged as differing), keeping their userData, and re-imports them.
    */
  method ApplyNewPresets(force: bool, rule: string, preset: Preset, importers: seq<AssetImporter?>)
    requires DistinctImporters(importers)
    modifies set i | 0 <= i < |importers| && importers[i] != null :: importers[i]
    ensures forall i :: 0 <= i < |importers| && importers[i] != null ==>
              importers[i].userData == old(importers[i].userData)
    ensures forall i :: 0 <= i < |importers| && importers[i] != null ==>
              if SelectedForApply(old(importers[i].userData), force, rule)
              then importers[i].applied == Some(preset) && importers[i].reimports == old(importers[i].reimports) + 1
              else importers[i].applied == old(importers[i].applied) && importers[i].reimports == old(importers[i].reimports)
  {
    for i := 0 to |importers|
      invariant forall k :: 0 <= k < |importers| && importers[k] != null ==>
                  importers[k].userData == old(importers[k].userData)
      invariant forall k :: 0 <= k < i && importers[k] != null ==>
                  if SelectedForApply(old(importers[k].userData), force, rule)
                  then importers[k].applied == Some(preset) && importers[k].reimports == old(importers[k].reimports) + 1
                  else importers[k].applied == old(importers[k].applied) && importers[k].reimports == old(importers[k].reimports)
      invariant forall k :: i <= k < |importers| && importers[k] != null ==>
                  importers[k].applied == old(importers[k].applied) && importers[k].reimports == old(importers[k].reimports)
    {
      var importer := importers[i];
      if importer != null && SelectedForApply(importer.userData, force, rule) {
        var userdatas := importer.userData;
        importer.ApplyPreset(preset);
        importer.userData := userdatas;
        importer.SaveAndReimport();
      }
    }
  }

  /**
    * Unlinks the assets of `rule` (all of them when forced, otherwise those flagged as
    * differing) by removing their markers, and re-imports them.
    */
  method ResetRule(force: bool, rule: string, importers: seq<AssetImporter?>)
    requires DistinctImporters(importers)
    modifies set i | 0 <= i < |importers| && importers[i] != null :: importers[i]
    ensures forall i :: 0 <= i < |importers| && importers[i] != null ==>
              importers[i].applied == old(importers[i].applied)
    ensures forall i :: 0 <= i < |importers| && importers[i] != null ==>
              if SelectedForReset(old(importers[i].userData), force, rule)
              then importers[i].userData == ResetUserData(old(importers[i].userData), rule)
                   && importers[i].reimports == old(importers[i].reimports) + 1
              else importers[i].userData == old(importers[i].userData) && importers[i].reimports == old(importers[i].reimports)
  {
    for i := 0 to |importers|
      invariant forall k :: 0 <= k < |importers| && importers[k] != null ==>
                  importers[k].applied == old(importers[k].applied)
      invariant forall k :: 0 <= k < i && importers[k] != null ==>
                  if SelectedForReset(old(importers[k].userData), force, rule)
                  then importers[k].userData == ResetUserData(old(importers[k].userData), rule)
                       && importers[k].reimports == old(importers[k].reimports) + 1
                  else importers[k].userData == old(importers[k].userData) && importers[k].reimports == old(importers[k].reimports)
      invariant forall k :: i <= k < |importers| && importers[k] != null ==>
                  importers[k].userData == old(importers[k].userData) && importers[k].reimports == old(importers[k].reimports)
    {
      var importer := importers[i];
      if importer != null && SelectedForReset(importer.userData, force, rule) {
        importer.userData := ReplaceAll(importer.userData, UsedMarker(rule), "");
        importer.userData := ReplaceAll(importer.userData, DifferingMarker, "");
        importer.SaveAndReimport();
      }
    }
  }
}
