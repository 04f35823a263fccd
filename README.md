# Container event discovery of docker-logger, in Dafny

This project models the discovery layer of docker-logger
(`app/discovery/events.go`). The layer turns the Docker runtime's container
records and raw events into simplified events
`Event{ContainerID, ContainerName, Group, TS, Status}` on one output queue.
It does four things:

- **Name and group resolution** (module `Names`).
  - A swarm task name `service.N.task` resolves to `service-N`.
  - Otherwise a non-empty `logger.container.name` label is used, and failing that the name itself.
  - The group is a non-empty `logger.group.name` label, or else the text between the first two slashes of the image.
  - The two hard-coded regular expressions are written out as string functions, and each is proved against a plain description of its match.
  - The swarm pattern `(.*)\.(\d+)\.(.*)` picks the split whose service part is longest. Only one such split exists.
  - The group pattern `/(.*?)/` picks the text between the first slash and the next one. An image with fewer than two slashes has the group `""`.
- **Inclusion policy** (module `Inclusion`).
  - `isAllowed` checks the include pattern first, then the exclude pattern, then the include list, then the exclude list, and otherwise allows.
  - It is proved equal to an ordered list of rules where the first definite verdict wins.
  - For each rung, a lemma proves that rung decides the result and that the lower settings have no effect.
  - User patterns are abstract predicates on names.
- **Raw-event translation** (module `Events`).
  - This is one pass of the listening loop, written as a pure function.
  - It keeps only container events whose status is start, restart, die, destroy, stop or pause, and whose resolved name is allowed.
  - `Status` is true exactly for start and restart.
- **The notifier** (module `Notifier`).
  - `EventNotif` is a class. Its `events` field is the output channel, a sequence that methods only append to.
  - `EmitRunningContainers` appends one started event per allowed listed container, in listing order. A failed listing appends nothing.
  - `Activate` appends the translation of each raw event it receives.
  - `NewEventNotif` compiles the include pattern, then the exclude pattern, and then emits the snapshot.
  - A pattern that fails to compile returns a `ConfigError` before the runtime is asked for any listing. The Docker client object counts its listing calls in a ghost field, which is how the model states this.

The Docker client is a small class with a fixed listing result, either the containers or an error. Its ghost field `listCalls` has no counterpart in the source: it is instrumentation that counts listings, so that contracts can say when a listing happens. Pattern compilation is a function parameter `compile`. The stream of raw events is the `feed` parameter of `Activate`.

## Model

| member | source | states |
|---|---|---|
| `Names.FindSwarm` | app/discovery/events.go:195 | `reSwarm.FindStringSubmatch` on the name; characterised by `Names.FindSwarmSpec` and `Names.LongestSwarmSplitUnique` |
| `Names.FindSwarmSpec` | app/discovery/events.go:39 | the swarm pattern matches a name iff the name is `service.replica.task` with a non-empty all-digit replica; the match is the split with the longest service |
| `Names.LongestSwarmSplitUnique` | app/discovery/events.go:39 | two splits with the longest service are equal, so the replica and task groups are determined |
| `Names.FindFromSpec` | app/discovery/events.go:39 | backtracking over the greedy first group finds a split whose service is shorter than the bound and no shorter than any other such split, or reports none |
| `Names.SplitAtSound` | app/discovery/events.go:39 | a match of `\.(\d+)\.(.*)` at position i is a swarm split whose service has length i |
| `Names.SplitAtComplete` | app/discovery/events.go:39 | every swarm split is the match found at the position given by its service length |
| `Names.DigitRunEnd` | app/discovery/events.go:39 | the greedy `\d+` ends at the first non-digit: all characters before are digits |
| `Names.IndexOf` | app/discovery/events.go:38 | the index returned holds the character and no earlier index from the start point does; None means no index does |
| `Names.Group` | app/discovery/events.go:159-165 | `EventNotif.group`; characterised by `Names.GroupFound`, `Names.GroupOfTwoSlashes` and `Names.GroupWithoutTwoSlashes` |
| `Names.GroupFound` | app/discovery/events.go:159-165 | for `before/g/after` with no slash in `before` or `g`, the group is `g` |
| `Names.GroupOfTwoSlashes` | app/discovery/events.go:159-165 | an image with two slashes has such a split, and the group is its middle part |
| `Names.GroupWithoutTwoSlashes` | app/discovery/events.go:159-165 | an image with fewer than two slashes has group `""` |
| `Names.GroupOfOneSlashExample` | app/discovery/events.go:159-165 | `group/worker:v1` has group `""` |
| `Names.GroupOfTwoSlashesExample` | app/discovery/events.go:159-165 | `umputun/system/logger:latest` has group `system` |
| `Names.BuildContainerName` | app/discovery/events.go:193-205 | `buildContainerName`, joining the gathered parts with "-"; characterised by `Names.BuildContainerNameSpec` |
| `Names.BuildContainerNameSpec` | app/discovery/events.go:193-205 | the longest swarm split gives `service-replica` whatever the labels are; without a split, a non-empty container-name label is used, else the name unchanged |
| `Names.PlainNameExample` | app/discovery/events.go:193-205 | `worker` has no swarm split, so without a non-empty name label (absent or `""`) it resolves to itself |
| `Names.SwarmNameExample` | app/discovery/events.go:193-205 | `web.2.xyz` resolves to `web-2` under any labels |
| `Names.BuildGroupName` | app/discovery/events.go:207-213 | `buildGroupName`; characterised, applied to `Group(image)`, by `Names.ResolveGroupSpec` |
| `Names.ResolveGroup` | app/discovery/events.go:140 | `buildGroupName(labels, e.group(image))` as both loops call it; characterised by `Names.ResolveGroupSpec` |
| `Names.ResolveGroupSpec` | app/discovery/events.go:207-213 | a non-empty group label wins; otherwise the group is the middle of any `before/g/after` split of the image, and `""` when the image has fewer than two slashes |
| `Inclusion.Contains` | app/discovery/events.go:184-191 | true iff some element of the list equals the name; false on the empty list |
| `Inclusion.Allowed` | app/discovery/events.go:167-182 | the ladder computed with `Contains` gives the policy's verdict `IsAllowed` |
| `Inclusion.IsAllowed` | app/discovery/events.go:167-182 | `isAllowed`; characterised by `Inclusion.IsAllowedIsLadder` and the four rung lemmas below, and computed by `Inclusion.Allowed` |
| `Inclusion.IsAllowedIsLadder` | app/discovery/events.go:167-182 | `IsAllowed` equals the first definite verdict of the rules include pattern, exclude pattern, include list, exclude list, with default allow |
| `Inclusion.IncludePatternDecides` | app/discovery/events.go:167-170 | with an include pattern, allowed iff it matches; changing the exclude pattern or either list changes nothing |
| `Inclusion.ExcludePatternDecides` | app/discovery/events.go:171-173 | with only an exclude pattern, allowed iff it does not match; changing either list changes nothing |
| `Inclusion.IncludeListDecides` | app/discovery/events.go:174-176 | without patterns and with a non-empty include list, allowed iff listed there; changing the exclude list changes nothing |
| `Inclusion.ExcludeListDecides` | app/discovery/events.go:177-181 | without patterns or include list, refused iff listed in the exclude list |
| `Events.GoDiv` | app/discovery/events.go:121 | Go's `/` on the timestamps; characterised by `Events.GoDivTruncates` |
| `Events.GoDivTruncates` | app/discovery/events.go:121 | the quotient rounds toward zero: the remainder has the sign of the dividend and is smaller than the divisor |
| `Events.GoDivNegativeExample` | app/discovery/events.go:149 | `-1500 / 1000` is `-1`, not `-2` |
| `Events.TrimPrefix` | app/discovery/events.go:110 | `strings.TrimPrefix`; characterised by `Events.TrimPrefixSpec` |
| `Events.TrimPrefixSpec` | app/discovery/events.go:110 | a string that starts with the prefix loses exactly that one copy; any other result is either the string unchanged or the string minus one leading copy of the prefix |
| `Events.TrimSlashExample` | app/discovery/events.go:139 | `//worker` loses one slash only |
| `Events.EventName` | app/discovery/events.go:110 | the `name` attribute (empty when absent) minus one leading "/", resolved by `buildContainerName`; characterised by `Events.TrimPrefixSpec` and `Names.BuildContainerNameSpec` |
| `Events.ContainerName` | app/discovery/events.go:139 | the first listed name minus one leading "/", resolved by `buildContainerName`; characterised by `Events.TrimPrefixSpec` and `Names.BuildContainerNameSpec` |
| `Events.Translate` | app/discovery/events.go:97-125 | an event is produced iff the type is "container", the status is one of the six recognised, and the resolved name is allowed; its Status is true iff start or restart; ID, name, group and time come from the actor, the `name` attribute minus one leading "/", the image and `Time/1000`, `TimeNano` |
| `Events.NonContainerIgnored` | app/discovery/events.go:101-103 | an event about anything but a container yields nothing |
| `Events.StopEventExample` | app/discovery/events.go:100-125 | a stop of `/worker` from `group/worker:v1` with no policy yields a stop event for `worker` with group `""` |
| `Events.FromContainer` | app/discovery/events.go:138-153 | a listed container yields an event iff its resolved name is allowed; that event has Status true, the container's ID, resolved name and group, and time `Created/1000` |
| `Events.Snapshot` | app/discovery/events.go:138-154 | the events the snapshot loop publishes for a listing; characterised by `Events.SnapshotContents` and `Events.SnapshotAppend` |
| `Events.SnapshotAppend` | app/discovery/events.go:138-154 | the snapshot of a listing split in two parts is the snapshot of the first part followed by that of the second, so listing order is kept |
| `Events.SnapshotContents` | app/discovery/events.go:138-154 | every snapshot event is a started, allowed event of some listed container; every allowed listed container's event is in it; no more events than containers |
| `Events.Feed` | app/discovery/events.go:100-126 | the events the listening loop publishes for a feed; characterised by `Events.FeedContents` and `Events.FeedAppend` |
| `Events.FeedAppend` | app/discovery/events.go:100-126 | the events of a feed split in two parts are those of the first part followed by those of the second |
| `Events.FeedContents` | app/discovery/events.go:100-126 | every published event has an allowed name and is the translation of some raw event of the feed (so a container event with a recognised status); every raw event that translates to an event has that event published; no more events than raw events |
| `Notifier.DockerClient.ListContainers` | app/discovery/events.go:132 | returns the runtime's listing result and adds one to the ghost count of listings |
| `Notifier.EventNotif.constructor` | app/discovery/events.go:63-70 | a notifier with the given client and policy and an empty queue |
| `Notifier.EventNotif.EmitRunningContainers` | app/discovery/events.go:131-157 | lists once; on failure returns the wrapped error and leaves the queue as it was; otherwise appends exactly the snapshot of the listing to the queue |
| `Notifier.EventNotif.Activate` | app/discovery/events.go:91-128 | appends exactly the translations of the received raw events, in order, to the queue |
| `Notifier.NewEventNotif` | app/discovery/events.go:42-82 | a bad include pattern, then a bad exclude pattern, fails with a ConfigError before any listing; otherwise lists once, fails with a CollectorError on a failed listing, and else returns a fresh notifier with the compiled policy whose queue is the snapshot |

## Left out

- The Docker client library is not part of this model. Listing is a fixed result held by `DockerClient`, and the event subscription is the `feed` parameter of `Activate`.
- Notifier.EventNotif.Activate: the live feed never ends in the source, but the model processes a finite prefix of it. A failed `AddEventListener` and the end of the feed both call `log.Fatalf`, which exits the process. Both are left out.
- The goroutine that `NewEventNotif` starts to run `activate` is left out, because it is concurrency. For the same reason, `NewEventNotif` does not call `Activate`.
- The channel's capacity of 100 and the blocking of a writer on a full channel are left out. The queue is an unbounded sequence. In the source this matters at start-up. Nothing reads the channel before `NewEventNotif` returns, and the `activate` goroutine starts only after the snapshot. So with more than 100 allowed running containers, the send at app/discovery/events.go:153 blocks forever and construction never returns. The model's `NewEventNotif` returns the whole snapshot instead.
- `Channel()` only hands the queue to the consumer. The model exposes the `events` field directly.
- Logging (`log.Printf`) is left out, because it is I/O.
- Go's regular-expression engine is not modelled for user patterns. A compiled pattern is a predicate on names, and compilation is the `compile` parameter.
- `time.Unix` normalisation is left out. `TS` is kept as the raw pair handed to it, using Go's truncating division: (`Time/1000`, `TimeNano`) for raw events and (`Created/1000`, 0) for listed containers.
- Events.FromContainer: this function and the snapshot methods require every listed container to have at least one name. The source indexes `Names[0]`, which panics on an empty list.
- Names.FindSwarm and Names.Group treat `.` as matching any character. Go's `.` does not match a newline, so names and images that contain a newline are not modelled. Docker container names and image references never contain one. For example, on `a/b` + newline + `c/d/e`, Go's `/(.*?)/` yields `d`, while `Names.Group` yields `b`, newline, `c`.
- The group of the image `group/worker:v1` is `""`, not `group`: the pattern `/(.*?)/` needs two slashes. The model follows the code here rather than the informal description of the group as the first path segment (see `Names.GroupOfOneSlashExample`).
