/** Events of the notifier (app/discovery/events.go): the simplified `Event`,
    the container records and raw runtime events it is made from, and the
    pure translation of one record or one raw event into an optional `Event`. */
module Events {
  import opened Wrappers
  import opened Names
  import opened Inclusion

  /** The pair handed to `time.Unix`: seconds and nanoseconds, not normalised. */
  datatype Timestamp = Timestamp(sec: int, nsec: int)

  /** A start (status true) or stop (status false) of one container. */
  datatype Event = Event(
    containerID: string,
    containerName: string,
    group: string,
    ts: Timestamp,
    status: bool)

  /** A running container as listed by the runtime. */
  datatype Container = Container(
    id: string,
    names: seq<string>,
    labels: map<string, string>,
    image: string,
    created: int)

  /** A raw runtime event: its object type, status text, actor and times. */
  datatype RawEvent = RawEvent(
    kind: string,
    status: string,
    actorID: string,
    attributes: map<string, string>,
    from: string,
    time: int,
    timeNano: int)

  const UpStatuses: seq<string> := ["start", "restart"]
  const DownStatuses: seq<string> := ["die", "destroy", "stop", "pause"]

  /** Go's integer division, which truncates toward zero. */
  function GoDiv(a: int, b: int): int
    requires b > 0
  {
    if a >= 0 then a / b else -((-a) / b)
  }

  /** `strings.TrimPrefix`: drop `prefix` once if `s` starts with it. */
  function TrimPrefix(s: string, prefix: string): string {
    if |prefix| <= |s| && s[..|prefix|] == prefix then s[|prefix|..] else s
  }

  /** Go's division by a positive divisor leaves a remainder with the sign of
      the dividend and smaller than the divisor: it rounds toward zero. */
  lemma GoDivTruncates(a: int, b: int)
    requires b > 0
    ensures a >= 0 ==> 0 <= a - GoDiv(a, b) * b < b
    ensures a < 0 ==> -b < a - GoDiv(a, b) * b <= 0
  {
    if a < 0 {
      var q := (-a) / b;
      assert -a == q * b + (-a) % b;
      assert GoDiv(a, b) * b == -(q * b);
    }
  }

  /** A negative timestamp is rounded toward zero, not down. */
  lemma GoDivNegativeExample()
    ensures GoDiv(-1500, 1000) == -1
  {
  }

  /** `TrimPrefix` removes the prefix exactly once, and otherwise either keeps
      the string or removes a copy of the prefix from its front. */
  lemma TrimPrefixSpec(prefix: string, t: string, s: string)
    ensures TrimPrefix(prefix + t, prefix) == t
    ensures TrimPrefix(s, prefix) == s || prefix + TrimPrefix(s, prefix) == s
  {
    assert (prefix + t)[..|prefix|] == prefix;
    assert (prefix + t)[|prefix|..] == t;
    if |prefix| <= |s| && s[..|prefix|] == prefix {
      assert s == s[..|prefix|] + s[|prefix|..];
    }
  }

  /** Only one leading slash is removed from a name. */
  lemma TrimSlashExample()
    ensures TrimPrefix("//worker", "/") == "/worker"
  {
    TrimPrefixSpec("/", "/worker", "");
    assert "/" + "/worker" == "//worker";
  }

  /** A Go map read: the empty string for an absent key. */
  function Lookup(m: map<string, string>, key: string): string {
    if key in m then m[key] else ""
  }

  /** The container name a raw event is about, with one leading "/" removed. */
  function EventName(ev: RawEvent): string {
    BuildContainerName(ev.attributes, TrimPrefix(Lookup(ev.attributes, "name"), "/"))
  }

  /** The container name of a listed container, from its first name. */
  function ContainerName(c: Container): string
    requires |c.names| > 0
  {
    BuildContainerName(c.labels, TrimPrefix(c.names[0], "/"))
  }

  /** One pass of the listening loop of `activate`: the event it publishes, if any. */
  function Translate(p: Policy, ev: RawEvent): (r: Option<Event>)
    ensures r.Some? <==>
              && ev.kind == "container"
              && ev.status in {"start", "restart", "die", "destroy", "stop", "pause"}
              && IsAllowed(p, EventName(ev))
    ensures r.Some? ==>
              && r.value.status == (ev.status == "start" || ev.status == "restart")
              && r.value.containerID == ev.actorID
              && r.value.containerName == EventName(ev)
              && r.value.group == ResolveGroup(ev.attributes, ev.from)
              && r.value.ts == Timestamp(GoDiv(ev.time, 1000), ev.timeNano)
  {
    if ev.kind != "container" then None
    else if !(ev.status in UpStatuses) && !(ev.status in DownStatuses) then None
    else
      var name := EventName(ev);
      var group := BuildGroupName(ev.attributes, Group(ev.from));
      if !IsAllowed(p, name) then None
      else Some(Event(ev.actorID, name, group, Timestamp(GoDiv(ev.time, 1000), ev.timeNano), ev.status in UpStatuses))
  }

  /** One pass of the loop of `emitRunningContainers`: a started event for an allowed container. */
  function FromContainer(p: Policy, c: Container): (r: Option<Event>)
    requires |c.names| > 0
    ensures r.Some? <==> IsAllowed(p, ContainerName(c))
    ensures r.Some? ==>
              && r.value.status
              && r.value.containerID == c.id
              && r.value.containerName == ContainerName(c)
              && r.value.group == ResolveGroup(c.labels, c.image)
              && r.value.ts == Timestamp(GoDiv(c.created, 1000), 0)
  {
    var name := ContainerName(c);
    var group := BuildGroupName(c.labels, Group(c.image));
    if !IsAllowed(p, name) then None
    else Some(Event(c.id, name, group, Timestamp(GoDiv(c.created, 1000), 0), true))
  }

  function AsSeq(o: Option<Event>): seq<Event> {
    match o
    case None => []
    case Some(e) => [e]
  }

  /** Every listed container has at least one name. */
  predicate AllNamed(cs: seq<Container>) {
    forall k :: 0 <= k < |cs| ==> |cs[k].names| > 0
  }

  /** The events of the start-up snapshot of `cs`, in listing order. */
  function Snapshot(p: Policy, cs: seq<Container>): seq<Event>
    requires AllNamed(cs)
    decreases |cs|
  {
    if cs == [] then []
    else Snapshot(p, cs[..|cs| - 1]) + AsSeq(FromContainer(p, cs[|cs| - 1]))
  }

  /** The events the listener publishes for the raw events `feed`, in feed order. */
  function Feed(p: Policy, feed: seq<RawEvent>): seq<Event>
    decreases |feed|
  {
    if feed == [] then []
    else Feed(p, feed[..|feed| - 1]) + AsSeq(Translate(p, feed[|feed| - 1]))
  }

  /** The snapshot of a listing split in two is the snapshot of each part, in order. */
  lemma {:induction false} SnapshotAppend(p: Policy, a: seq<Container>, b: seq<Container>)
    requires AllNamed(a) && AllNamed(b)
    ensures AllNamed(a + b)
    ensures Snapshot(p, a + b) == Snapshot(p, a) + Snapshot(p, b)
    decreases |b|
  {
    if b == [] {
      assert a + b == a;
    } else {
      var b' := b[..|b| - 1];
      assert (a + b)[..|a + b| - 1] == a + b';
      assert (a + b)[|a + b| - 1] == b[|b| - 1];
      SnapshotAppend(p, a, b');
    }
  }

  /** The snapshot has one started event per allowed container, and nothing else. */
  lemma {:induction false} SnapshotContents(p: Policy, cs: seq<Container>)
    requires AllNamed(cs)
    ensures |Snapshot(p, cs)| <= |cs|
    ensures forall e :: e in Snapshot(p, cs) ==>
              e.status && IsAllowed(p, e.containerName) &&
              exists k :: 0 <= k < |cs| && FromContainer(p, cs[k]) == Some(e)
    ensures forall k :: 0 <= k < |cs| && IsAllowed(p, ContainerName(cs[k])) ==>
              FromContainer(p, cs[k]).value in Snapshot(p, cs)
    decreases |cs|
  {
    if cs != [] {
      var init := cs[..|cs| - 1];
      SnapshotContents(p, init);
      forall e | e in Snapshot(p, cs)
        ensures exists k :: 0 <= k < |cs| && FromContainer(p, cs[k]) == Some(e)
      {
        if e in Snapshot(p, init) {
          var k :| 0 <= k < |init| && FromContainer(p, init[k]) == Some(e);
          assert cs[k] == init[k];
        } else {
          assert FromContainer(p, cs[|cs| - 1]) == Some(e);
        }
      }
      forall k | 0 <= k < |cs| && IsAllowed(p, ContainerName(cs[k]))
        ensures FromContainer(p, cs[k]).value in Snapshot(p, cs)
      {
        if k < |cs| - 1 {
          assert cs[k] == init[k];
        }
      }
    }
  }

  /** The events of a feed split in two are the events of each part, in order. */
  lemma {:induction false} FeedAppend(p: Policy, a: seq<RawEvent>, b: seq<RawEvent>)
    ensures Feed(p, a + b) == Feed(p, a) + Feed(p, b)
    decreases |b|
  {
    if b == [] {
      assert a + b == a;
    } else {
      var b' := b[..|b| - 1];
      assert (a + b)[..|a + b| - 1] == a + b';
      assert (a + b)[|a + b| - 1] == b[|b| - 1];
      FeedAppend(p, a, b');
    }
  }

  /** The listener publishes exactly the translations of the feed: every
      published event is the translation of some raw event (so it comes from a
      container event with a recognised status and an allowed name), and every
      raw event that translates to an event has it published. */
  lemma {:induction false} FeedContents(p: Policy, feed: seq<RawEvent>)
    ensures |Feed(p, feed)| <= |feed|
    ensures forall e :: e in Feed(p, feed) ==>
              IsAllowed(p, e.containerName) &&
              exists k :: 0 <= k < |feed| && Translate(p, feed[k]) == Some(e)
    ensures forall k :: 0 <= k < |feed| && Translate(p, feed[k]).Some? ==>
              Translate(p, feed[k]).value in Feed(p, feed)
    decreases |feed|
  {
    if feed != [] {
      var init := feed[..|feed| - 1];
      FeedContents(p, init);
      forall e | e in Feed(p, feed)
        ensures exists k :: 0 <= k < |feed| && Translate(p, feed[k]) == Some(e)
      {
        if e in Feed(p, init) {
          var k :| 0 <= k < |init| && Translate(p, init[k]) == Some(e);
          assert feed[k] == init[k];
        } else {
          assert Translate(p, feed[|feed| - 1]) == Some(e);
        }
      }
      forall k | 0 <= k < |feed| && Translate(p, feed[k]).Some?
        ensures Translate(p, feed[k]).value in Feed(p, feed)
      {
        if k < |feed| - 1 {
          assert feed[k] == init[k];
        }
      }
    }
  }

  /** A stop of `/worker` from image `group/worker:v1`, with no policy, is
      published as a stop of `worker` with an empty group (one slash only). */
  lemma StopEventExample(id: string)
    ensures Translate(Policy([], [], None, None),
                      RawEvent("container", "stop", id, map["name" := "/worker"], "group/worker:v1", 0, 0))
            == Some(Event(id, "worker", "", Timestamp(0, 0), false))
  {
    var attrs := map["name" := "/worker"];
    var ev := RawEvent("container", "stop", id, attrs, "group/worker:v1", 0, 0);
    assert Lookup(attrs, "name") == "/worker";
    assert TrimPrefix("/worker", "/") == "worker";
    assert ContainerNameLabel !in attrs && GroupNameLabel !in attrs;
    PlainNameExample(attrs);
    assert EventName(ev) == "worker";
    GroupOfOneSlashExample();
    assert ResolveGroup(attrs, "group/worker:v1") == "";
  }

  /** A raw event about anything but a container is never published. */
  lemma NonContainerIgnored(p: Policy, ev: RawEvent)
    requires ev.kind != "container"
    ensures Translate(p, ev).None?
  {
  }
}
