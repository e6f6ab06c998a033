/** FindSeasEp(directory, filename, ...): the first-match-wins scan of the user's
    filename rules over a simplified filename or its full path. */
module RuleMatch {
  import opened Text
  import opened Entities
  import opened Simplify

  /** `Path.DirectorySeparatorChar` on Windows. */
  const DirectorySeparator: char := '\\'

  /** The two strings a rule may run against: the simplified filename and the directory
      joined with it, each lower-cased with a space appended. */
  datatype Subject = Subject(file: string, path: string)

  function MakeSubject(directory: string, simplified: string): Subject {
    Subject(Lower(simplified) + " ", Lower(directory + [DirectorySeparator] + simplified) + " ")
  }

  function Candidate(r: Rule, subj: Subject): string {
    if r.useFullPath then subj.path else subj.file
  }

  /** The values (seas, ep, maxEp) a rule writes: none when it is disabled, does not
      match or is malformed; otherwise each group read by Int32.TryParse, -1 on failure. */
  function Assigned(r: Rule, rx: Regex, subj: Subject): Option<(int, int, int)> {
    if !r.enabled then None
    else match rx(Candidate(r, subj), r.pattern)
      case Matched(s, e, f) => Some((NumberOrUnknown(s), NumberOrUnknown(e), NumberOrUnknown(f)))
      case NoMatch => None
      case Malformed => None
  }

  function Assignments(rules: seq<Rule>, rx: Regex, subj: Subject): (a: seq<Option<(int, int, int)>>)
    ensures |a| == |rules|
    ensures forall j :: 0 <= j < |rules| ==> a[j] == Assigned(rules[j], rx, subj)
  {
    seq(|rules|, j requires 0 <= j < |rules| => Assigned(rules[j], rx, subj))
  }

  /** A match that settles the scan: it gives a season or an episode. */
  predicate Hit(a: Option<(int, int, int)>) {
    a.Some? && (a.value.0 != -1 || a.value.1 != -1)
  }

  /** The position of the first settling match. */
  function FirstHit(a: seq<Option<(int, int, int)>>): (r: Option<nat>)
    ensures r.Some? ==> r.value < |a| && Hit(a[r.value]) && forall k :: 0 <= k < r.value ==> !Hit(a[k])
    ensures r.None? ==> forall k :: 0 <= k < |a| ==> !Hit(a[k])
  {
    if a == [] then None
    else match FirstHit(a[..|a| - 1])
      case Some(j) => Some(j)
      case None => if Hit(a[|a| - 1]) then Some(|a| - 1) else None
  }

  /** The position of the last rule that matched at all. */
  function LastAssigned(a: seq<Option<(int, int, int)>>): (r: Option<nat>)
    ensures r.Some? ==> r.value < |a| && a[r.value].Some? && forall k :: r.value < k < |a| ==> a[k].None?
    ensures r.None? ==> forall k :: 0 <= k < |a| ==> a[k].None?
  {
    if a == [] then None
    else if a[|a| - 1].Some? then Some(|a| - 1)
    else LastAssigned(a[..|a| - 1])
  }

  /** The scan's outcome: the first settling match wins; without one, seas and ep are
      unknown while maxEp and rex keep what the last matching rule left. */
  function Scan(a: seq<Option<(int, int, int)>>): SeasEp {
    match FirstHit(a)
    case Some(j) => SeasEp(true, a[j].value.0, a[j].value.1, a[j].value.2, Some(j))
    case None =>
      match LastAssigned(a)
      case Some(j) => SeasEp(false, -1, -1, a[j].value.2, Some(j))
      case None => NoMatchResult
  }

  function ScanRules(rules: seq<Rule>, rx: Regex, subj: Subject): SeasEp {
    Scan(Assignments(rules, rx, subj))
  }

  function ShowNameHint(show: Option<Show>): string {
    if show.Some? then show.value.name else ""
  }

  /** What FindSeasEp(directory, filename, ...) returns, or the exception it raises. */
  function NameScan(directory: string, filename: string, show: Option<Show>, rules: seq<Rule>, rx: Regex)
    : Fallible<SeasEp>
  {
    match Simplified(filename, ShowNameHint(show))
    case Thrown(e) => Thrown(e)
    case Ok(f) => Ok(ScanRules(rules, rx, MakeSubject(directory, f)))
  }

  method FindSeasEpInName(directory: string, filename: string, show: Option<Show>, rules: seq<Rule>, rx: Regex)
    returns (r: Fallible<SeasEp>)
    ensures r == NameScan(directory, filename, show, rules, rx)
  {
    var showNameHint := if show.Some? then show.value.name else "";
    var simplified := SimplifyFilename(filename, showNameHint);
    if simplified.Thrown? {
      return Thrown(simplified.fault);
    }
    var name := simplified.value;
    var fullPath := directory + [DirectorySeparator] + name;
    var found := RunRules(Subject(Lower(name) + " ", Lower(fullPath) + " "), rules, rx);
    return Ok(found);
  }

  /** The loop over the rules: skip disabled ones, run each pattern, overwrite the
      out-values on a match and stop at the first match that gives a season or episode. */
  method RunRules(subj: Subject, rules: seq<Rule>, rx: Regex) returns (r: SeasEp)
    ensures r == ScanRules(rules, rx, subj)
  {
    var maxEp, seas, ep := -1, -1, -1;
    var rex: Option<nat> := None;
    ghost var a := Assignments(rules, rx, subj);
    for i := 0 to |rules|
      invariant FirstHit(a[..i]) == None
      invariant seas == -1 && ep == -1
      invariant rex == LastAssigned(a[..i])
      invariant rex.Some? ==> rex.value < i && maxEp == a[rex.value].value.2
      invariant rex.None? ==> maxEp == -1
    {
      PrefixStep(a, i);
      var rule := rules[i];
      if !rule.enabled {
        continue;
      }
      var outcome := rx(if rule.useFullPath then subj.path else subj.file, rule.pattern);
      if outcome.Matched? {
        seas := NumberOrUnknown(outcome.s);
        ep := NumberOrUnknown(outcome.e);
        maxEp := NumberOrUnknown(outcome.f);
        rex := Some(i);
        if seas != -1 || ep != -1 {
          FirstHitIs(a, i);
          return SeasEp(true, seas, ep, maxEp, rex);
        }
      }
    }
    assert a[..|rules|] == a;
    return SeasEp(seas != -1 || ep != -1, seas, ep, maxEp, rex);
  }

  /** One more rule, while no earlier one has settled: it settles the scan exactly when it
      gives a season or an episode, and it is the last to have matched when it matches. */
  lemma PrefixStep(a: seq<Option<(int, int, int)>>, i: nat)
    requires i < |a| && FirstHit(a[..i]) == None
    ensures forall k :: 0 <= k < i ==> !Hit(a[k])
    ensures FirstHit(a[..i + 1]) == (if Hit(a[i]) then Some(i) else None)
    ensures LastAssigned(a[..i + 1]) == (if a[i].Some? then Some(i) else LastAssigned(a[..i]))
  {
    assert a[..i + 1][..i] == a[..i];
    forall k | 0 <= k < i ensures !Hit(a[k]) {
      assert a[..i][k] == a[k];
    }
  }

  // ---------------------------------------------------------------------------
  // Properties

  /** The scan returns true exactly when seas or ep is known, and that happens exactly
      when some enabled rule's match gives a season or an episode; on false, seas and ep
      are -1 while maxEp and rex are those of the last enabled rule that matched at all. */
  lemma ScanResult(rules: seq<Rule>, rx: Regex, subj: Subject)
    ensures var r := ScanRules(rules, rx, subj);
      && (r.found <==> r.seas != -1 || r.ep != -1)
      && (r.found <==> exists j :: 0 <= j < |rules| && Hit(Assigned(rules[j], rx, subj)))
      && (!r.found ==> r.seas == -1 && r.ep == -1)
      && (!r.found && r.rex.Some? ==>
            var j := r.rex.value;
            && j < |rules| && rules[j].enabled && rx(Candidate(rules[j], subj), rules[j].pattern).Matched?
            && r.maxEp == NumberOrUnknown(rx(Candidate(rules[j], subj), rules[j].pattern).f)
            && forall k :: j < k < |rules| ==> Assigned(rules[k], rx, subj).None?)
      && (!r.found && r.rex.None? ==>
            r.maxEp == -1 && forall k :: 0 <= k < |rules| ==> Assigned(rules[k], rx, subj).None?)
  {
    var a := Assignments(rules, rx, subj);
    var r := Scan(a);
    if FirstHit(a).Some? {
      var j := FirstHit(a).value;
      assert Hit(a[j]);
    } else {
      forall j | 0 <= j < |rules| ensures !Hit(Assigned(rules[j], rx, subj)) {
        assert a[j] == Assigned(rules[j], rx, subj);
      }
    }
  }

  /** The first enabled rule, in list order, whose match gives a season or an episode
      decides seas, ep and maxEp. */
  lemma FirstSettlingRuleWins(rules: seq<Rule>, rx: Regex, subj: Subject, j: nat)
    requires j < |rules| && Hit(Assigned(rules[j], rx, subj))
    requires forall k :: 0 <= k < j ==> !Hit(Assigned(rules[k], rx, subj))
    ensures var g := Assigned(rules[j], rx, subj).value;
      ScanRules(rules, rx, subj) == SeasEp(true, g.0, g.1, g.2, Some(j))
  {
    var a := Assignments(rules, rx, subj);
    forall k | 0 <= k < j ensures !Hit(a[k]) {
      assert a[k] == Assigned(rules[k], rx, subj);
    }
    FirstHitIs(a, j);
  }

  lemma FirstHitIs(a: seq<Option<(int, int, int)>>, j: nat)
    requires j < |a| && Hit(a[j]) && forall k :: 0 <= k < j ==> !Hit(a[k])
    ensures FirstHit(a) == Some(j)
  {
    var f := FirstHit(a);
    assert f.Some?;
    assert !(f.value < j);
    assert !(j < f.value);
  }

  /** The order of the rules decides the winner when two would settle the scan. */
  lemma OrderDecides(first: Rule, second: Rule, rx: Regex, subj: Subject)
    requires Hit(Assigned(first, rx, subj)) && Hit(Assigned(second, rx, subj))
    ensures var g := Assigned(first, rx, subj).value;
      ScanRules([first, second], rx, subj) == SeasEp(true, g.0, g.1, g.2, Some(0))
    ensures var g := Assigned(second, rx, subj).value;
      ScanRules([second, first], rx, subj) == SeasEp(true, g.0, g.1, g.2, Some(0))
  {
    FirstSettlingRuleWins([first, second], rx, subj, 0);
    FirstSettlingRuleWins([second, first], rx, subj, 0);
  }

  /** A disabled rule never affects the outcome, whatever its pattern and path flag. */
  lemma DisabledRuleIgnored(rules: seq<Rule>, j: nat, other: Rule, rx: Regex, subj: Subject)
    requires j < |rules| && !rules[j].enabled && !other.enabled
    ensures ScanRules(rules[j := other], rx, subj) == ScanRules(rules, rx, subj)
  {
    assert Assignments(rules[j := other], rx, subj) == Assignments(rules, rx, subj);
  }

  /** A rule whose pattern makes the regex engine throw counts as if it were disabled. */
  lemma MalformedRuleSkipped(rules: seq<Rule>, j: nat, rx: Regex, subj: Subject)
    requires j < |rules| && rx(Candidate(rules[j], subj), rules[j].pattern) == Malformed
    ensures ScanRules(rules[j := rules[j].(enabled := false)], rx, subj) == ScanRules(rules, rx, subj)
  {
    assert Assignments(rules[j := rules[j].(enabled := false)], rx, subj) == Assignments(rules, rx, subj);
  }

  /** A rule "S(?<s>\d+)E(?<e>\d+)" matching "show s03e08 " with groups "03" and "08"
      gives season 3, episode 8: leading zeros do not matter and the absent f is -1. */
  lemma LeadingZeroGroups(rule: Rule, rx: Regex, subj: Subject)
    requires rule.enabled && rx(Candidate(rule, subj), rule.pattern) == Matched("03", "08", "")
    ensures ScanRules([rule], rx, subj) == SeasEp(true, 3, 8, -1, Some(0))
  {
    ZeroPaddedGroups();
    SingleRule(rule, rx, subj, "03", "08", "");
  }

  /** A single enabled rule whose match gives a season or an episode decides the scan. */
  lemma SingleRule(rule: Rule, rx: Regex, subj: Subject, s: string, e: string, f: string)
    requires rule.enabled && rx(Candidate(rule, subj), rule.pattern) == Matched(s, e, f)
    requires NumberOrUnknown(s) != -1 || NumberOrUnknown(e) != -1
    ensures ScanRules([rule], rx, subj)
      == SeasEp(true, NumberOrUnknown(s), NumberOrUnknown(e), NumberOrUnknown(f), Some(0))
  {
    FirstSettlingRuleWins([rule], rx, subj, 0);
  }

  lemma ZeroPaddedGroups()
    ensures NumberOrUnknown("03") == 3 && NumberOrUnknown("08") == 8 && NumberOrUnknown("") == -1
  {
    assert "03"[..1] == "0" && "08"[..1] == "0" && "0"[..0] == [];
    assert DigitsValue("0") == 0;
    assert DigitsValue("03") == 3 && DigitsValue("08") == 8;
    ParseDigits("03");
    ParseDigits("08");
    EmptyGroupIsUnknown();
  }
}
