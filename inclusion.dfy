/** The inclusion policy of the notifier (app/discovery/events.go): which
    resolved container names are let through.

    User-supplied regular expressions are abstract: a compiled pattern is a
    predicate on names, and whether a pattern string compiles is decided by
    the caller (see Notifier.NewEventNotif). */
module Inclusion {
  import opened Wrappers

  /** A compiled user pattern: whether it matches a name. */
  type Matcher = string -> bool

  /** The policy fields of `EventNotif`. */
  datatype Policy = Policy(
    excludes: seq<string>,
    includes: seq<string>,
    includesRe: Option<Matcher>,
    excludesRe: Option<Matcher>)

  /** `contains`: a search of the list for an element equal to `e`. */
  method Contains(e: string, s: seq<string>) returns (found: bool)
    ensures found <==> exists k :: 0 <= k < |s| && s[k] == e
    ensures s == [] ==> !found
  {
    for i := 0 to |s|
      invariant forall k :: 0 <= k < i ==> s[k] != e
    {
      if s[i] == e {
        return true;
      }
    }
    return false;
  }

  /** `isAllowed`: include pattern, then exclude pattern, then include list,
      then exclude list, then allow. */
  function IsAllowed(p: Policy, name: string): bool {
    if p.includesRe.Some? then p.includesRe.value(name)
    else if p.excludesRe.Some? then !p.excludesRe.value(name)
    else if |p.includes| > 0 then name in p.includes
    else if name in p.excludes then false
    else true
  }

  /** `isAllowed` computed with `contains`, as the source does. */
  method Allowed(p: Policy, name: string) returns (ok: bool)
    ensures ok == IsAllowed(p, name)
  {
    if p.includesRe.Some? {
      return p.includesRe.value(name);
    }
    if p.excludesRe.Some? {
      return !p.excludesRe.value(name);
    }
    if |p.includes| > 0 {
      ok := Contains(name, p.includes);
      return;
    }
    var excluded := Contains(name, p.excludes);
    if excluded {
      return false;
    }
    return true;
  }

  // ---------------------------------------------------------------------------
  // The same policy as an ordered list of rules, the first definite answer winning

  datatype Rule = IncludePattern | ExcludePattern | IncludeList | ExcludeList

  const Ladder: seq<Rule> := [IncludePattern, ExcludePattern, IncludeList, ExcludeList]

  /** What one rule says about a name, or None when it has no opinion. */
  function Verdict(p: Policy, rule: Rule, name: string): Option<bool> {
    match rule
    case IncludePattern => if p.includesRe.Some? then Some(p.includesRe.value(name)) else None
    case ExcludePattern => if p.excludesRe.Some? then Some(!p.excludesRe.value(name)) else None
    case IncludeList => if |p.includes| > 0 then Some(name in p.includes) else None
    case ExcludeList => if name in p.excludes then Some(false) else None
  }

  /** The first definite verdict of `rules`, or `fallback` when none has one. */
  function FirstVerdict(p: Policy, rules: seq<Rule>, name: string, fallback: bool): bool {
    if rules == [] then fallback
    else match Verdict(p, rules[0], name)
      case Some(v) => v
      case None => FirstVerdict(p, rules[1..], name, fallback)
  }

  /** `isAllowed` is the rule ladder with default allow. */
  lemma IsAllowedIsLadder(p: Policy, name: string)
    ensures IsAllowed(p, name) == FirstVerdict(p, Ladder, name, true)
  {
    var tail3: seq<Rule> := [ExcludeList];
    var tail2: seq<Rule> := [IncludeList, ExcludeList];
    var tail1: seq<Rule> := [ExcludePattern, IncludeList, ExcludeList];
    assert tail3[1..] == [];
    assert FirstVerdict(p, tail3, name, true) == !(name in p.excludes);
    assert tail2[1..] == tail3;
    assert FirstVerdict(p, tail2, name, true) ==
      if |p.includes| > 0 then name in p.includes else !(name in p.excludes);
    assert tail1[1..] == tail2;
    assert Ladder[1..] == tail1;
  }

  /** With an include pattern, its match alone decides: the exclude pattern and
      both lists have no effect. */
  lemma IncludePatternDecides(p: Policy, name: string, excludes: seq<string>, includes: seq<string>, excludesRe: Option<Matcher>)
    requires p.includesRe.Some?
    ensures IsAllowed(p, name) == p.includesRe.value(name)
    ensures IsAllowed(p.(excludes := excludes, includes := includes, excludesRe := excludesRe), name) == IsAllowed(p, name)
  {
  }

  /** With an exclude pattern and no include pattern, the name is allowed iff
      the exclude pattern does not match; both lists have no effect. */
  lemma ExcludePatternDecides(p: Policy, name: string, excludes: seq<string>, includes: seq<string>)
    requires p.includesRe.None? && p.excludesRe.Some?
    ensures IsAllowed(p, name) == !p.excludesRe.value(name)
    ensures IsAllowed(p.(excludes := excludes, includes := includes), name) == IsAllowed(p, name)
  {
  }

  /** Without patterns, a non-empty include list decides by membership and the
      exclude list is never consulted. */
  lemma IncludeListDecides(p: Policy, name: string, excludes: seq<string>)
    requires p.includesRe.None? && p.excludesRe.None? && |p.includes| > 0
    ensures IsAllowed(p, name) <==> exists k :: 0 <= k < |p.includes| && p.includes[k] == name
    ensures IsAllowed(p.(excludes := excludes), name) == IsAllowed(p, name)
  {
  }

  /** Without patterns or include list, a name is refused iff it is in the
      exclude list (default allow). */
  lemma ExcludeListDecides(p: Policy, name: string)
    requires p.includesRe.None? && p.excludesRe.None? && p.includes == []
    ensures !IsAllowed(p, name) <==> exists k :: 0 <= k < |p.excludes| && p.excludes[k] == name
  {
  }
}
