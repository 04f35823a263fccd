/** The notifier object (app/discovery/events.go): construction, the start-up
    snapshot and the listening loop, all publishing into one queue of events
    that only grows. The queue stands for the output channel; its capacity
    and the blocking of writers are not modelled. */
module Notifier {
  import opened Wrappers
  import opened Inclusion
  import opened Events

  /** The container runtime as the notifier sees it: a listing of running
      containers that either succeeds or fails. The ghost count of listing
      calls is instrumentation for stating when a listing happens. */
  class DockerClient {
    const running: Result<seq<Container>, string>
    ghost var listCalls: nat

    constructor (running: Result<seq<Container>, string>)
      ensures this.running == running && listCalls == 0
    {
      this.running := running;
      listCalls := 0;
    }

    method ListContainers() returns (r: Result<seq<Container>, string>)
      modifies this`listCalls
      ensures r == running
      ensures listCalls == old(listCalls) + 1
    {
      r := running;
      listCalls := listCalls + 1;
    }
  }

  /** Why construction failed. */
  datatype NotifError =
    | ConfigError(message: string)
    | CollectorError(message: string)

  class EventNotif {
    const client: DockerClient
    const policy: Policy
    /** Everything published so far, oldest first. */
    var events: seq<Event>

    constructor (client: DockerClient, policy: Policy)
      ensures this.client == client && this.policy == policy && events == []
    {
      this.client := client;
      this.policy := policy;
      events := [];
    }

    /** `emitRunningContainers`: list the running containers once and publish a
        started event for each allowed one, in listing order; on a failed
        listing publish nothing. */
    method EmitRunningContainers() returns (err: Option<string>)
      requires client.running.Success? ==> AllNamed(client.running.value)
      modifies this`events, client`listCalls
      ensures client.listCalls == old(client.listCalls) + 1
      ensures client.running.Failure? ==>
                err == Some("can't list containers: " + client.running.error) && events == old(events)
      ensures client.running.Success? ==>
                err == None && events == old(events) + Snapshot(policy, client.running.value)
    {
      var listing := client.ListContainers();
      if listing.Failure? {
        return Some("can't list containers: " + listing.error);
      }
      var cs := listing.value;
      for i := 0 to |cs|
        invariant client.listCalls == old(client.listCalls) + 1
        invariant events == old(events) + Snapshot(policy, cs[..i])
      {
        assert cs[..i + 1][..i] == cs[..i];
        var e := FromContainer(policy, cs[i]);
        if e.Some? {
          events := events + [e.value];
        }
      }
      assert cs[..|cs|] == cs;
      return None;
    }

    /** The listening loop of `activate` over the raw events received so far:
        each one that translates to an event is published, in feed order. */
    method Activate(feed: seq<RawEvent>)
      modifies this`events
      ensures events == old(events) + Feed(policy, feed)
    {
      for i := 0 to |feed|
        invariant events == old(events) + Feed(policy, feed[..i])
      {
        assert feed[..i + 1][..i] == feed[..i];
        var e := Translate(policy, feed[i]);
        if e.Some? {
          events := events + [e.value];
        }
      }
      assert feed[..|feed|] == feed;
    }
  }

  /** `NewEventNotif`: compile the include pattern, then the exclude pattern
      (an empty pattern means none), then publish the snapshot of the running
      containers. A pattern that does not compile fails before any listing;
      a failed listing fails construction. */
  method NewEventNotif(
    client: DockerClient,
    excludes: seq<string>,
    includes: seq<string>,
    includesPattern: string,
    excludesPattern: string,
    compile: string -> Result<Matcher, string>)
    returns (n: EventNotif?, err: Option<NotifError>)
    requires client.running.Success? ==> AllNamed(client.running.value)
    modifies client`listCalls
    ensures n == null <==> err.Some?
    ensures includesPattern != "" && compile(includesPattern).Failure? ==>
              && err == Some(ConfigError("failed to compile includesPattern: " + compile(includesPattern).error))
              && client.listCalls == old(client.listCalls)
    ensures (includesPattern == "" || compile(includesPattern).Success?) &&
            excludesPattern != "" && compile(excludesPattern).Failure? ==>
              && err == Some(ConfigError("failed to compile excludesPattern: " + compile(excludesPattern).error))
              && client.listCalls == old(client.listCalls)
    ensures (includesPattern == "" || compile(includesPattern).Success?) &&
            (excludesPattern == "" || compile(excludesPattern).Success?) ==>
              && client.listCalls == old(client.listCalls) + 1
              && (client.running.Failure? ==>
                    err == Some(CollectorError("failed to emit containers: " + ("can't list containers: " + client.running.error))))
              && (client.running.Success? ==>
                    && n != null && fresh(n) && n.client == client
                    && n.policy == Policy(excludes, includes,
                                          if includesPattern == "" then None else Some(compile(includesPattern).value),
                                          if excludesPattern == "" then None else Some(compile(excludesPattern).value))
                    && n.events == Snapshot(n.policy, client.running.value))
  {
    var includesRe: Option<Matcher> := None;
    if includesPattern != "" {
      var compiled := compile(includesPattern);
      if compiled.Failure? {
        return null, Some(ConfigError("failed to compile includesPattern: " + compiled.error));
      }
      includesRe := Some(compiled.value);
    }

    var excludesRe: Option<Matcher> := None;
    if excludesPattern != "" {
      var compiled := compile(excludesPattern);
      if compiled.Failure? {
        return null, Some(ConfigError("failed to compile excludesPattern: " + compiled.error));
      }
      excludesRe := Some(compiled.value);
    }

    var res := new EventNotif(client, Policy(excludes, includes, includesRe, excludesRe));
    var emitErr := res.EmitRunningContainers();
    if emitErr.Some? {
      return null, Some(CollectorError("failed to emit containers: " + emitErr.value));
    }
    return res, None;
  }
}
