/** A filter rule (CIGenericRule): the preset it selects, its priority and its path and name tests. */
module Rules {
  import opened Wrappers
  import opened Strings
  import opened Host

  datatype Rule = Rule(
    preset: Option<Preset>,  // null until a preset is assigned in the inspector
    priority: int,
    testName: string,
    nameContains: bool,
    nameExact: bool,
    testPath: string,
    pathContains: bool,
    pathExact: bool,
    id: int,
    title: string,  // LABEL
    visibleName: string)
  {
    /**
      * Whether the rule accepts an asset whose directory part is `path` and whose file
      * part is `name`: each enabled test must pass.
      */
    predicate TestCondition(path: string, name: string) {
      (!pathContains || Contains(path, testPath))
      && (!pathExact || path == testPath)
      && (!nameContains || Contains(name, testName))
      && (!nameExact || name == testName)
    }
  }

  /** A rule with the field initialisers of CIRule: empty patterns, every test enabled. */
  const NewRule: Rule := Rule(None, 0, "", true, true, "", true, true, 0, "", "")

  /** With every test disabled, a rule accepts every asset. */
  lemma NoTestAcceptsAll(r: Rule, path: string, name: string)
    requires !r.pathContains && !r.pathExact && !r.nameContains && !r.nameExact
    ensures r.TestCondition(path, name)
  {
  }

  /** When the exact test on the path is on, the containment test on the path does not matter. */
  lemma PathExactSubsumesContains(r: Rule, path: string, name: string)
    requires r.pathExact
    ensures r.TestCondition(path, name) == r.(pathContains := !r.pathContains).TestCondition(path, name)
  {
    if path == r.testPath {
      ContainsPrefix(path, r.testPath);
    }
  }

  /** When the exact test on the name is on, the containment test on the name does not matter. */
  lemma NameExactSubsumesContains(r: Rule, path: string, name: string)
    requires r.nameExact
    ensures r.TestCondition(path, name) == r.(nameContains := !r.nameContains).TestCondition(path, name)
  {
    if name == r.testName {
      ContainsPrefix(name, r.testName);
    }
  }

  /** `weaker` has the same patterns as `r` and enables no test that `r` disables. */
  predicate Relaxes(weaker: Rule, r: Rule) {
    weaker.testPath == r.testPath && weaker.testName == r.testName
    && (weaker.pathContains ==> r.pathContains) && (weaker.pathExact ==> r.pathExact)
    && (weaker.nameContains ==> r.nameContains) && (weaker.nameExact ==> r.nameExact)
  }

  /** Turning tests off never turns an accepted asset into a rejected one. */
  lemma RelaxingKeepsMatches(r: Rule, weaker: Rule, path: string, name: string)
    requires Relaxes(weaker, r) && r.TestCondition(path, name)
    ensures weaker.TestCondition(path, name)
  {
  }

  /** A rule with the field initialisers of CIRule accepts exactly the asset whose path and name are both empty. */
  lemma NewRuleMatchesOnlyEmpty(path: string, name: string)
    ensures NewRule.TestCondition(path, name) <==> path == "" && name == ""
  {
    ContainsPrefix(path, "");
    ContainsPrefix(name, "");
  }
}
