/** Name and group resolution for containers (app/discovery/events.go).

    The two hard-coded regular expressions of the source are written out as
    string functions:
      - the swarm pattern `(.*)\.(\d+)\.(.*)`, whose first group is greedy, so
        that a match is the split of the name with the LONGEST service part;
      - the group pattern `/(.*?)/`, whose group is lazy, so that a match is the
        text between the first slash and the slash after it.
    Names and images are taken to hold no newline, so `.` matches any character. */
module Names {
  import opened Wrappers

  const ContainerNameLabel := "logger.container.name"
  const GroupNameLabel := "logger.group.name"

  predicate IsDigit(c: char) { '0' <= c <= '9' }

  predicate AllDigits(s: string) { forall k :: 0 <= k < |s| ==> IsDigit(s[k]) }

  /** A label counts only when it is present and not empty. */
  predicate HasLabel(labels: map<string, string>, key: string) {
    key in labels && labels[key] != ""
  }

  // ---------------------------------------------------------------------------
  // The swarm pattern

  /** The three capture groups of the swarm pattern: service, replica number, task. */
  datatype SwarmMatch = SwarmMatch(service: string, replica: string, task: string)

  /** `name` is `service.replica.task` with a non-empty, all-digit replica. */
  ghost predicate IsSwarmSplit(name: string, m: SwarmMatch) {
    && name == m.service + "." + m.replica + "." + m.task
    && |m.replica| > 0
    && AllDigits(m.replica)
  }

  /** The split a leftmost-first matcher picks: no other split has a longer service. */
  ghost predicate IsLongestSwarmSplit(name: string, m: SwarmMatch) {
    && IsSwarmSplit(name, m)
    && forall m' :: IsSwarmSplit(name, m') ==> |m'.service| <= |m.service|
  }

  /** End of the run of digits that starts at `k`: everything in between is a
      digit and the character at the end, if any, is not. */
  function DigitRunEnd(s: string, k: nat): (j: nat)
    requires k <= |s|
    ensures k <= j <= |s|
    ensures forall t :: k <= t < j ==> IsDigit(s[t])
    ensures j == |s| || !IsDigit(s[j])
    decreases |s| - k
  {
    if k == |s| || !IsDigit(s[k]) then k else DigitRunEnd(s, k + 1)
  }

  /** The match of `\.(\d+)\.(.*)` at position `i`, with the service `name[..i]`.
      `\d+` is greedy, and a shorter run of digits cannot be followed by a dot,
      so only the whole run of digits can be the replica. */
  function SplitAt(name: string, i: nat): Option<SwarmMatch>
    requires i < |name|
  {
    if name[i] != '.' then None
    else
      var j := DigitRunEnd(name, i + 1);
      if i + 1 < j < |name| && name[j] == '.' then
        Some(SwarmMatch(name[..i], name[i + 1..j], name[j + 1..]))
      else None
  }

  /** Backtracking over the greedy first group: try service lengths n-1, n-2, ..., 0. */
  function FindFrom(name: string, n: nat): Option<SwarmMatch>
    requires n <= |name|
    decreases n
  {
    if n == 0 then None
    else if SplitAt(name, n - 1).Some? then SplitAt(name, n - 1)
    else FindFrom(name, n - 1)
  }

  /** `reSwarm.FindStringSubmatch(name)`: the capture groups, or None when there is no match. */
  function FindSwarm(name: string): Option<SwarmMatch> {
    FindFrom(name, |name|)
  }

  lemma SplitAtSound(name: string, i: nat)
    requires i < |name| && SplitAt(name, i).Some?
    ensures IsSwarmSplit(name, SplitAt(name, i).value)
    ensures |SplitAt(name, i).value.service| == i
  {
    var j := DigitRunEnd(name, i + 1);
    var m := SplitAt(name, i).value;
    assert name == name[..i] + [name[i]] + name[i + 1..j] + [name[j]] + name[j + 1..];
    assert m.replica == name[i + 1..j];
  }

  lemma SplitAtComplete(name: string, m: SwarmMatch)
    requires IsSwarmSplit(name, m)
    ensures |m.service| < |name|
    ensures SplitAt(name, |m.service|) == Some(m)
  {
    var i := |m.service|;
    var j := i + 1 + |m.replica|;
    assert name[i] == '.';
    assert name[j] == '.';
    assert forall t :: i + 1 <= t < j ==> name[t] == m.replica[t - i - 1];
    assert forall t :: i + 1 <= t < j ==> IsDigit(name[t]);
    assert !IsDigit(name[j]);
    assert DigitRunEnd(name, i + 1) == j;
    assert name[..i] == m.service;
    assert name[i + 1..j] == m.replica;
    assert name[j + 1..] == m.task;
  }

  lemma {:induction false} FindFromSpec(name: string, n: nat)
    requires n <= |name|
    ensures FindFrom(name, n).Some? ==>
              IsSwarmSplit(name, FindFrom(name, n).value) && |FindFrom(name, n).value.service| < n
    ensures forall m :: IsSwarmSplit(name, m) && |m.service| < n ==>
              FindFrom(name, n).Some? && |m.service| <= |FindFrom(name, n).value.service|
    decreases n
  {
    if n > 0 {
      if SplitAt(name, n - 1).Some? {
        SplitAtSound(name, n - 1);
      } else {
        FindFromSpec(name, n - 1);
        forall m | IsSwarmSplit(name, m) && |m.service| < n
          ensures |m.service| < n - 1
        {
          SplitAtComplete(name, m);
        }
      }
    }
  }

  /** The swarm match exists exactly when the name has a swarm split, and it is
      the split with the longest service part. */
  lemma FindSwarmSpec(name: string)
    ensures FindSwarm(name).None? <==> forall m :: !IsSwarmSplit(name, m)
    ensures FindSwarm(name).Some? ==> IsLongestSwarmSplit(name, FindSwarm(name).value)
  {
    FindFromSpec(name, |name|);
    forall m | IsSwarmSplit(name, m)
      ensures |m.service| < |name|
    {
      SplitAtComplete(name, m);
    }
  }

  /** Only one split has the longest service: the replica and task are fixed by it. */
  lemma LongestSwarmSplitUnique(name: string, m1: SwarmMatch, m2: SwarmMatch)
    requires IsLongestSwarmSplit(name, m1) && IsLongestSwarmSplit(name, m2)
    ensures m1 == m2
  {
    SplitAtComplete(name, m1);
    SplitAtComplete(name, m2);
  }

  // ---------------------------------------------------------------------------
  // The group pattern

  /** The first index at or after `from` that holds `c`. */
  function IndexOf(s: string, c: char, from: nat): (r: Option<nat>)
    requires from <= |s|
    ensures r.Some? ==> from <= r.value < |s| && s[r.value] == c
    ensures forall k :: from <= k < |s| && (r.None? || k < r.value) ==> s[k] != c
    decreases |s| - from
  {
    if from == |s| then None
    else if s[from] == c then Some(from)
    else IndexOf(s, c, from + 1)
  }

  /** `EventNotif.group`: the text between the first slash and the next one, or
      "" when the image has fewer than two slashes. */
  function Group(image: string): string {
    match IndexOf(image, '/', 0)
    case None => ""
    case Some(a) =>
      match IndexOf(image, '/', a + 1)
      case None => ""
      case Some(b) => image[a + 1..b]
  }

  /** `image` is `before/group/after` with no slash in `before` nor in `group`. */
  datatype SlashSplit = SlashSplit(before: string, group: string, after: string)

  ghost predicate IsGroupSplit(image: string, s: SlashSplit) {
    && image == s.before + "/" + s.group + "/" + s.after
    && '/' !in s.before
    && '/' !in s.group
  }

  lemma GroupFound(image: string, s: SlashSplit)
    requires IsGroupSplit(image, s)
    ensures Group(image) == s.group
  {
    var a := |s.before|;
    var b := a + 1 + |s.group|;
    assert image[a] == '/' && image[b] == '/';
    forall k | 0 <= k < a
      ensures image[k] != '/'
    {
      assert image[k] == s.before[k];
      assert s.before[k] in s.before;
    }
    forall k | a < k < b
      ensures image[k] != '/'
    {
      assert image[k] == s.group[k - a - 1];
      assert s.group[k - a - 1] in s.group;
    }
    assert IndexOf(image, '/', 0) == Some(a);
    assert IndexOf(image, '/', a + 1) == Some(b);
    assert image[a + 1..b] == s.group;
  }

  /** Two slashes anywhere are enough for the group pattern to match. */
  lemma GroupOfTwoSlashes(image: string, i: nat, j: nat)
    requires i < j < |image| && image[i] == '/' && image[j] == '/'
    ensures exists s :: IsGroupSplit(image, s) && Group(image) == s.group
  {
    var ra := IndexOf(image, '/', 0);
    assert ra.Some? && ra.value <= i;
    var a := ra.value;
    var rb := IndexOf(image, '/', a + 1);
    assert rb.Some?;
    var b := rb.value;
    var before, group, after := image[..a], image[a + 1..b], image[b + 1..];
    forall k | 0 <= k < |before|
      ensures before[k] != '/'
    {
      assert before[k] == image[k];
    }
    forall k | 0 <= k < |group|
      ensures group[k] != '/'
    {
      assert group[k] == image[a + 1 + k];
    }
    assert image[..b] == before + "/" + group;
    assert image == image[..b] + "/" + after;
    assert IsGroupSplit(image, SlashSplit(before, group, after));
  }

  /** With fewer than two slashes the group is empty. */
  lemma GroupWithoutTwoSlashes(image: string)
    requires forall i, j :: 0 <= i < j < |image| && image[i] == '/' ==> image[j] != '/'
    ensures Group(image) == ""
  {
  }

  // ---------------------------------------------------------------------------
  // Resolution

  /** `strings.Join`. */
  function Join(parts: seq<string>, sep: string): string {
    if |parts| == 0 then ""
    else if |parts| == 1 then parts[0]
    else parts[0] + sep + Join(parts[1..], sep)
  }

  /** `buildContainerName`: the pieces gathered are the swarm service and
      replica, or else a non-empty container-name label; when there are none
      the name is kept. */
  function BuildContainerName(labels: map<string, string>, name: string): string {
    var parts :=
      match FindSwarm(name)
      case Some(m) => [m.service, m.replica]
      case None => if HasLabel(labels, ContainerNameLabel) then [labels[ContainerNameLabel]] else [];
    if |parts| > 0 then Join(parts, "-") else name
  }

  /** `buildGroupName`: a non-empty group label wins over the default. */
  function BuildGroupName(labels: map<string, string>, default: string): string {
    if HasLabel(labels, GroupNameLabel) then labels[GroupNameLabel] else default
  }

  /** The group of a container, from its labels and its image. */
  function ResolveGroup(labels: map<string, string>, image: string): string {
    BuildGroupName(labels, Group(image))
  }

  /** Precedence of container-name resolution: swarm name, then label, then the name itself. */
  lemma BuildContainerNameSpec(labels: map<string, string>, name: string)
    ensures forall m :: IsLongestSwarmSplit(name, m) ==>
              BuildContainerName(labels, name) == m.service + "-" + m.replica
    ensures (forall m :: !IsSwarmSplit(name, m)) && HasLabel(labels, ContainerNameLabel) ==>
              BuildContainerName(labels, name) == labels[ContainerNameLabel]
    ensures (forall m :: !IsSwarmSplit(name, m)) && !HasLabel(labels, ContainerNameLabel) ==>
              BuildContainerName(labels, name) == name
  {
    FindSwarmSpec(name);
    forall m | IsLongestSwarmSplit(name, m)
      ensures BuildContainerName(labels, name) == m.service + "-" + m.replica
    {
      LongestSwarmSplitUnique(name, m, FindSwarm(name).value);
      assert FindSwarm(name) == Some(m);
      var parts := [m.service, m.replica];
      assert parts[1..] == [m.replica];
      assert Join(parts, "-") == m.service + "-" + m.replica;
    }
  }

  /** Precedence of group resolution: group label, then the text between the
      first two slashes of the image, else "". */
  lemma ResolveGroupSpec(labels: map<string, string>, image: string)
    ensures HasLabel(labels, GroupNameLabel) ==> ResolveGroup(labels, image) == labels[GroupNameLabel]
    ensures !HasLabel(labels, GroupNameLabel) ==>
              forall s :: IsGroupSplit(image, s) ==> ResolveGroup(labels, image) == s.group
    ensures !HasLabel(labels, GroupNameLabel) &&
            (forall i, j :: 0 <= i < j < |image| && image[i] == '/' ==> image[j] != '/') ==>
              ResolveGroup(labels, image) == ""
  {
    forall s | IsGroupSplit(image, s)
      ensures Group(image) == s.group
    {
      GroupFound(image, s);
    }
    if forall i, j :: 0 <= i < j < |image| && image[i] == '/' ==> image[j] != '/' {
      GroupWithoutTwoSlashes(image);
    }
  }

  /** A swarm task name resolves to service and replica, whatever its labels say. */
  lemma SwarmNameExample(labels: map<string, string>)
    ensures BuildContainerName(labels, "web.2.xyz") == "web-2"
  {
    var name := "web.2.xyz";
    var m := SwarmMatch("web", "2", "xyz");
    assert IsSwarmSplit(name, m);
    forall m' | IsSwarmSplit(name, m')
      ensures |m'.service| <= 3
    {
      SplitAtComplete(name, m');
    }
    BuildContainerNameSpec(labels, name);
  }

  /** `worker` has no swarm split, so without a non-empty name label it
      resolves to itself. */
  lemma PlainNameExample(labels: map<string, string>)
    requires !HasLabel(labels, ContainerNameLabel)
    ensures BuildContainerName(labels, "worker") == "worker"
  {
    forall m | IsSwarmSplit("worker", m)
      ensures false
    {
      SplitAtComplete("worker", m);
    }
    BuildContainerNameSpec(labels, "worker");
  }

  /** An image with a single slash has no group. */
  lemma GroupOfOneSlashExample()
    ensures Group("group/worker:v1") == ""
  {
    GroupWithoutTwoSlashes("group/worker:v1");
  }

  /** The group is the second path segment of a three-segment image. */
  lemma GroupOfTwoSlashesExample()
    ensures Group("umputun/system/logger:latest") == "system"
  {
    var image := "umputun/system/logger:latest";
    assert image[..7] == "umputun";
    assert image[7] == '/';
    assert image[8..14] == "system";
    assert image[14] == '/';
    assert image[15..] == "logger:latest";
    assert image == image[..7] + [image[7]] + image[8..14] + [image[14]] + image[15..];
    GroupFound(image, SlashSplit("umputun", "system", "logger:latest"));
  }
}
