/**
  * The marker protocol on an importer's free-text `userData`: a first import appends
  * "\n" + Prefix + "\n" + <preset name>; a later import reads the line after the prefix
  * line and may append "\n" + Differing; a reset removes both markers.
  */
module Markers {
  import opened Strings

  /** Marks an asset whose settings come from a preset of this system. */
  const Prefix: string := "CustomImporter used"
  /** Marks an asset whose settings were found to differ from its preset. */
  const Differing: string := "Differ from preset"

  /** The text a first import appends, and the text a reset of rule `name` removes. */
  function UsedMarker(name: string): string {
    "\n" + Prefix + "\n" + name
  }

  /** The text that flags an asset as differing, and that a reset removes. */
  const DifferingMarker: string := "\n" + Differing

  /** userData after a first import with the preset called `name`. */
  function MarkFirstImport(userData: string, name: string): (r: string)
    ensures |r| == |userData| + |Prefix| + |name| + 2 && r[..|userData|] == userData
    ensures r[|userData|] == '\n' && OccursAt(r, Prefix, |userData| + 1)
    ensures r[|userData| + 1 + |Prefix|..] == "\n" + name
  {
    assert UsedMarker(name) == ['\n'] + Prefix + ("\n" + name);
    userData + UsedMarker(name)
  }

  /** userData after a later import found the asset's preset: the flag is added once. */
  function MarkDiffering(userData: string): (r: string)
    ensures |userData| <= |r| && r[..|userData|] == userData && Contains(r, Differing)
  {
    if Contains(userData, Differing) then userData
    else
      assert OccursAt(userData + DifferingMarker, Differing, |userData| + 1);
      userData + DifferingMarker
  }

  /** The preset name recorded in `lines`: the line after the first line equal to Prefix, or "". */
  function SettingsUsed(lines: seq<string>): (r: string)
    ensures forall i ::
              (0 <= i < |lines| - 1 && lines[i] == Prefix && forall j :: 0 <= j < i ==> lines[j] != Prefix)
              ==> r == lines[i + 1]
    ensures (forall i :: 0 <= i < |lines| - 1 ==> lines[i] != Prefix) ==> r == ""
  {
    if |lines| < 2 then ""
    else if lines[0] == Prefix then lines[1]
    else SettingsUsed(lines[1..])
  }

  /** ApplyNewPresets: the assets of `rule` it re-applies the preset to. */
  predicate SelectedForApply(userData: string, force: bool, rule: string) {
    userData != "" && Contains(userData, rule) && (force || !Contains(userData, Differing))
  }

  /** ResetRule: the assets of `rule` it unlinks. */
  predicate SelectedForReset(userData: string, force: bool, rule: string): (b: bool)
    ensures !force ==>
              (b <==> SelectedForApply(userData, true, rule) && !SelectedForApply(userData, false, rule))
  {
    userData != "" && Contains(userData, rule) && (force || Contains(userData, Differing))
  }

  /** ResetRule: userData with every marker of `rule` and every differing flag removed. */
  function ResetUserData(userData: string, rule: string): string {
    ReplaceAll(ReplaceAll(userData, UsedMarker(rule), ""), DifferingMarker, "")
  }

  // ---------------------------------------------------------------------------

  lemma ContainsDropFirst(s: string, c: char, q: string)
    requires Contains(s, [c] + q)
    ensures Contains(s, q)
  {
    var k :| 0 <= k <= |s| && OccursAt(s, [c] + q, k);
    assert s[k + 1..k + 1 + |q|] == ([c] + q)[1..];
    assert OccursAt(s, q, k + 1);
  }

  /** After a later import the flag is present, and a second later import adds nothing. */
  lemma {:induction false} MarkDifferingOnce(userData: string)
    ensures Contains(MarkDiffering(userData), Differing)
    ensures MarkDiffering(MarkDiffering(userData)) == MarkDiffering(userData)
  {
    if !Contains(userData, Differing) {
      assert userData + DifferingMarker == (userData + "\n") + Differing;
      ContainsSuffix(userData + "\n", Differing);
    }
  }

  /**
    * Round trip of the first-import marker: parsing the lines of the marked userData gives
    * back the preset name, provided the old userData held no Prefix and the name no line break.
    */
  lemma {:induction false} ParseAfterFirstImport(userData: string, name: string)
    requires !Contains(userData, Prefix) && NoBreak(name)
    ensures SettingsUsed(SplitLines(MarkFirstImport(userData, name))) == name
  {
    var t := Prefix + "\n" + name;
    assert UsedMarker(name) == "\n" + t;
    assert MarkFirstImport(userData, name) == userData + "\n" + t;
    SplitLinesAfter(userData, t);
    SplitLinesFirst(Prefix, name);
    SplitLinesSingle(name);
    var r := SplitLines(userData + "\n" + t);
    assert SplitLines(t) == [Prefix, name];
    var n := |r| - 2;
    assert r[n] == Prefix && r[n + 1] == name;
    forall j | 0 <= j < n
      ensures r[j] != Prefix
    {
      assert Contains(userData, r[j]);
    }
  }

  /** No occurrence of `UsedMarker(name)` in `u + UsedMarker(name) + t` starts inside `u`. */
  lemma UsedMarkerFirstAt(u: string, name: string, t: string)
    requires !Contains(u, Prefix)
    ensures forall k :: 0 <= k < |u| ==> !OccursAt(u + UsedMarker(name) + t, UsedMarker(name), k)
  {
    assert UsedMarker(name) == ['\n'] + Prefix + ("\n" + name);
    if Contains(u, ['\n'] + Prefix) {
      ContainsDropFirst(u, '\n', Prefix);
    }
    NoOccurrenceBefore(u, '\n', Prefix, "\n" + name, t);
  }

  /** No occurrence of DifferingMarker in `u + DifferingMarker` starts inside `u`. */
  lemma DifferingMarkerFirstAt(u: string)
    requires !Contains(u, DifferingMarker)
    ensures forall k :: 0 <= k < |u| ==> !OccursAt(u + DifferingMarker + "", DifferingMarker, k)
  {
    assert DifferingMarker == ['\n'] + Differing + "";
    NoOccurrenceBefore(u, '\n', Differing, "", "");
  }

  /**
    * Round trip of ResetRule: an asset marked by its first import, and possibly flagged
    * as differing afterwards, gets back the userData the marker was appended to (the
    * userData as ApplyTo left it).
    */
  lemma ResetAfterFirstImport(userData: string, name: string)
    requires !Contains(userData, Prefix) && !Contains(userData, DifferingMarker)
    ensures ResetUserData(MarkFirstImport(userData, name), name) == userData
    ensures ResetUserData(MarkDiffering(MarkFirstImport(userData, name)), name) == userData
  {
    ResetMarked(userData, name);
    if !Contains(MarkFirstImport(userData, name), Differing) {
      ResetMarkedFlagged(userData, name);
    }
  }

  /** ResetUserData undoes MarkFirstImport. */
  lemma ResetMarked(userData: string, name: string)
    requires !Contains(userData, Prefix) && !Contains(userData, DifferingMarker)
    ensures ResetUserData(MarkFirstImport(userData, name), name) == userData
  {
    var m := UsedMarker(name);
    UsedMarkerFirstAt(userData, name, "");
    assert MarkFirstImport(userData, name) == userData + m + "";
    ReplaceAllAfter(userData, m, "", "");
    assert ReplaceAll(MarkFirstImport(userData, name), m, "") == userData;
    ReplaceAllAbsent(userData, DifferingMarker, "");
  }

  /** ResetUserData undoes MarkFirstImport followed by the differing flag. */
  lemma ResetMarkedFlagged(userData: string, name: string)
    requires !Contains(userData, Prefix) && !Contains(userData, DifferingMarker)
    ensures ResetUserData(MarkFirstImport(userData, name) + DifferingMarker, name) == userData
  {
    var m := UsedMarker(name);
    var flagged := userData + m + DifferingMarker;
    assert MarkFirstImport(userData, name) + DifferingMarker == flagged;
    UsedMarkerFirstAt(userData, name, DifferingMarker);
    ReplaceAllAfter(userData, m, DifferingMarker, "");
    ReplaceAllAbsent(DifferingMarker, m, "");
    assert ReplaceAll(flagged, m, "") == userData + DifferingMarker + "";
    DifferingMarkerFirstAt(userData);
    ReplaceAllAfter(userData, DifferingMarker, "", "");
  }

  /** Both forced and flagged resets of rule `name` select an asset marked with `name`. */
  lemma {:induction false} ResetSelectsMarked(userData: string, name: string, force: bool)
    ensures SelectedForReset(MarkFirstImport(userData, name), true, name)
    ensures SelectedForReset(MarkDiffering(MarkFirstImport(userData, name)), force, name)
  {
    var marked := MarkFirstImport(userData, name);
    var front := userData + ("\n" + Prefix + "\n");
    assert UsedMarker(name) == ("\n" + Prefix + "\n") + name;
    assert marked == front + name;
    ContainsSuffix(front, name);
    MarkDifferingOnce(marked);
    if !Contains(marked, Differing) {
      ContainsInFront(marked, DifferingMarker, name);
    }
  }

  /** Without force, ApplyNewPresets leaves an asset flagged as differing alone. */
  lemma ApplySkipsDiffering(userData: string, rule: string)
    ensures !SelectedForApply(MarkDiffering(userData), false, rule)
  {
    MarkDifferingOnce(userData);
  }
}
