# right_link boot sequencer and downloader, in Dafny

This project models two parts of the RightLink instance agent:

- **`InstanceSetup`** (module `Actors`, with helpers in `BootBundle`, `FrozenDate`
  and `Connectivity`). This is the actor that boots an instance. It
  announces the agent version, applies the managed-login policy, fetches and configures
  the software repositories (including frozen-date mirrors), reads the startup tags,
  fetches the boot bundle, polls for missing inputs until every executable is ready, and
  runs the bundle. Each remote call becomes a request appended to `sent`. Its reply
  arrives as a call of the matching `On...` method, which is the request's continuation.
  The `phase` field records which reply is awaited. The persisted instance state, the
  startup tags, the audit log and the connectivity monitor's offline timer are fields of
  the class.
- **`Downloader`** (module `Cook`). It covers:
  - the hostname check and DNS table built at construction;
  - the balancer's fatal-error predicate;
  - resource sanitisation;
  - byte scaling and the `details` summary;
  - parsing of the balancer's `NoResult` messages;
  - the counters that `download` resets.

The Ruby library behaviour the code relies on is modelled explicitly:
- in `RubyText`, `String#split` drops trailing empty fields, and `Integer#to_s` and
  `Array#join` are written out;
- in `Cook`, `nil.to_i` is 0 (`Cook.ToI`), and nil interpolates as the empty string
  (`Cook.OrEmpty`).

`Date.parse(s) - 1` is modelled in `FrozenDate` for ISO `YYYY-MM-DD` input. It uses
Ruby's default calendar, which is Julian before 1582-10-15, so 1582-10-05 to 1582-10-14
do not exist.

Behaviour of the code worth knowing:
- A failed `set_r_s_version` strands the instance, yet the sequence goes on to the login
  policy (`actors/lib/instance_setup.rb:85-86`). No audit entry is written, because no
  auditor exists yet. A later successful bundle run sets the state to `operational` again
  (`:140`), so `stranded` is not absorbing. `Actors.StrandedThenOperational` shows this
  run.
- An address that two hostnames resolve to maps to the later one in the downloader's IP
  table (`lib/instance/cook/downloader.rb:121-124`), so an earlier hostname can vanish
  from the table's values. `Cook.SharedAddressHidesHostname` exhibits it.
- The MB tier of `scale` starts at `1024^2`, which in Ruby is an exclusive or (1026). The
  KB range is tested first, so the effective MB tier still begins at 1024 * 1024. The
  model keeps the XOR (`Cook.MbTierLow`) and proves the effective ranges.

## Model

| member | source | states |
|---|---|---|
| Actors.InstanceSetup.constructor | actors/lib/instance_setup.rb:36-43 | the state is the persisted one, and the boot sequence is scheduled exactly when it is `booting`; nothing is sent or audited yet |
| Actors.InstanceSetup.ConnectionStatus | actors/lib/instance_setup.rb:61-73 | always answers true; the timer and offline mode move exactly as `Connectivity.OnStatus` says |
| Actors.InstanceSetup.GraceExpires | actors/lib/instance_setup.rb:63 | when the armed grace timer fires, offline mode is enabled and the field keeps holding the fired timer |
| Actors.InstanceSetup.Strand | actors/lib/instance_setup.rb:164-169 | the state becomes `stranded`; the message, with `": content"` when there is content, is appended as an error only when an auditor exists |
| Actors.InstanceSetup.InitBoot | actors/lib/instance_setup.rb:82-89 | sends `set_r_s_version` with this agent's identity and version 6 |
| Actors.InstanceSetup.OnSetVersion | actors/lib/instance_setup.rb:84-86 | a failed reply strands and a successful one leaves the state alone; nothing is audited; in both cases the login policy is requested next |
| Actors.InstanceSetup.EnableManagedLogin | actors/lib/instance_setup.rb:96-97 | sends `get_login_policy` for this agent |
| Actors.InstanceSetup.OnLoginPolicy | actors/lib/instance_setup.rb:98-117 | on success, audits "Managed login enabled" plus the policy's audit text, or the failure section plus "Error applying policy: message" under the policy's audit id; on a failed fetch, audits nothing; never changes the instance state; always goes on to fetch the repositories |
| Actors.InstanceSetup.Boot | actors/lib/instance_setup.rb:125-126 | sends `get_repositories` for this agent |
| Actors.InstanceSetup.OnRepositories | actors/lib/instance_setup.rb:127-152 | failure strands, audits nothing and ends the sequence; success sets the auditor to the reply's audit id, audits the section and the repository list, makes exactly the configurator calls of `MirrorCalls`, keeps the state, and queries the tags |
| Actors.InstanceSetup.ConfigureRepositories | actors/lib/instance_setup.rb:180-196 | the calls made are exactly `MirrorCalls` of the repositories, in order; a repository whose date does not parse is skipped and the loop goes on |
| Actors.ConfigureOneSpec | actors/lib/instance_setup.rb:183-191 | a repository gets a call exactly when its name is a configurator and its frozen date, if any, parses; the call carries the name, the base URLs and the previous-day stamp |
| Actors.MirrorCallsAppend | actors/lib/instance_setup.rb:181-196 | configuration is per repository: the calls for a concatenation are the calls for each part, so a failing repository does not stop later ones |
| Actors.MirrorCallsSpec | actors/lib/instance_setup.rb:181-196 | a call is made if and only if some repository in the list yields it |
| Actors.InstanceSetup.OnStartupTags | actors/lib/instance_setup.rb:214-217 | the startup tags are recorded, and the boot bundle is requested under the auditor's audit id |
| Actors.InstanceSetup.OnBootBundle | actors/lib/instance_setup.rb:218-230 | failure strands with "Failed to retrieve missing inputs: Failed to retrieve boot scripts[: content]"; success keeps the executables, runs the bundle at once when none is pending, and otherwise requests the not-ready ids |
| Actors.BootScriptsFailureTextSpec | actors/lib/instance_setup.rb:227-229 | the doubly wrapped failure text, with and without content |
| Actors.StrandTextSpec | actors/lib/instance_setup.rb:166 | the stranding text starts with the message, equals it exactly when there is no content, and otherwise ends in `": content"` |
| Actors.InstanceSetup.RetrieveMissingInputs | actors/lib/instance_setup.rb:247-254 | sends `get_missing_attributes` with the not-ready script ids and recipe ids, in bundle order |
| Actors.InstanceSetup.OnMissingInputs | actors/lib/instance_setup.rb:255-282 | failure strands and the continuation never runs; success merges the entries into the bundle in place, then either runs the bundle (nothing pending, nothing audited) or audits "Missing inputs for titles, waiting..." and requests again |
| Actors.InstanceSetup.CheckPending | actors/lib/instance_setup.rb:270-278 | with nothing pending the bundle runs with a full converge and nothing is audited or sent; otherwise the pending titles are audited once, the request is sent again and the converge flag is unchanged |
| Actors.InstanceSetup.RunBootBundle | actors/lib/instance_setup.rb:289-291 | forces full converge and runs the bundle |
| Actors.InstanceSetup.OnBundleRun | actors/lib/instance_setup.rb:138-143 | success makes the instance `operational`; failure strands with "Failed to run boot sequence: Failed to run boot bundle" |
| Actors.UnparsableDateSkipped | actors/lib/instance_setup.rb:186-195 | a repository whose frozen date the model's ISO-only date parser rejects (see `FrozenDate.ParseIsoDate` under ## Left out) gets no configurator call |
| Actors.OneScriptCompleted | actors/lib/instance_setup.rb:256-271 | a pending script whose entry comes back becomes ready with the returned inputs, and nothing is left pending |
| Actors.WaitForOneScript | actors/lib/instance_setup.rb:213-310 | from the tags query on, a bundle whose one script waits for an input that the first reply supplies runs, and the instance ends `operational` with the script ready and the repository configuration untouched |
| Actors.FetchOneScript | actors/lib/instance_setup.rb:213-230 | after the tags reply, a bundle holding one waiting script is kept as fetched and the instance waits for its missing inputs, the repository configuration untouched |
| Actors.SupplyOneInput | actors/lib/instance_setup.rb:255-310 | a missing-inputs reply carrying the waiting script's own entry makes it ready with that entry's inputs, runs the bundle and ends `operational` |
| Actors.BootScenario | actors/lib/instance_setup.rb:82-310 | for any agent, any repository whose frozen date the model's ISO-only date parser rejects, and any waiting script with its matching entry: a full boot with a failed login fetch ends `operational`, with no configurator call and the script ready |
| Actors.StrandedThenOperational | actors/lib/instance_setup.rb:85-140 | a failed version announcement strands, and a later successful bundle run still leaves the instance `operational` |
| Connectivity.DeconnectedSpec | actors/lib/instance_setup.rb:62-63 | a deconnection arms the timer only when none is held (`||=`), keeps offline mode, and is idempotent |
| Connectivity.ConnectedSpec | actors/lib/instance_setup.rb:64-71 | a connection clears the timer and disables offline mode, from any monitor state |
| Connectivity.NoExpiryNoOffline | actors/lib/instance_setup.rb:61-73 | starting online, no sequence of notices without a grace expiry switches offline mode on |
| Connectivity.FiredIsHeld | actors/lib/instance_setup.rb:62-69 | once the timer has fired and offline mode is on, deconnections and expiries change nothing until a connection arrives |
| Connectivity.GraceScenarios | actors/lib/instance_setup.rb:61-73 | a reconnection within the grace period leaves the agent online; an expiry turns offline mode on |
| BootBundle.NotReadyIdsSpec | actors/lib/instance_setup.rb:248-251 | an id is listed for a kind exactly when an executable of that kind with that id is not ready |
| BootBundle.NotReadyIdsCount | actors/lib/instance_setup.rb:248-251 | the script ids and recipe ids together number exactly the pending executables |
| BootBundle.NotReadyIdsAppend | actors/lib/instance_setup.rb:250-251 | the id lists of a concatenation are the concatenated lists |
| BootBundle.PendingSpec | actors/lib/instance_setup.rb:270-271 | nothing is pending exactly when every executable is ready; every pending executable is in the bundle and not ready |
| BootBundle.TitlesSpec | actors/lib/instance_setup.rb:274 | one title per executable, the title at each position being that executable's own |
| BootBundle.FirstWith | actors/lib/instance_setup.rb:259 | `detect`: the index found is the first executable of that kind with that id, and None means there is none |
| BootBundle.FirstWithShape | actors/lib/instance_setup.rb:259-264 | `detect` depends only on kinds and ids, not on readiness or inputs |
| BootBundle.MergeShape | actors/lib/instance_setup.rb:257-269 | merging keeps the length and each executable's id, kind and title, and never makes a ready executable not ready |
| BootBundle.MergeTargetsStable | actors/lib/instance_setup.rb:257-269 | which executable an entry lands on does not change as entries are merged |
| BootBundle.MergeUntouched | actors/lib/instance_setup.rb:257-269 | an executable that no entry targets is unchanged |
| BootBundle.MergeTouched | actors/lib/instance_setup.rb:257-269 | a targeted executable becomes ready with the inputs of the last entry that targets it |
| BootBundle.LastTargeting | actors/lib/instance_setup.rb:257-269 | for a targeted executable there is a last entry that targets it |
| BootBundle.EntryCompletes | actors/lib/instance_setup.rb:257-269 | with ids unique per kind, an executable for which an entry of its kind and id comes back is ready after the merge |
| BootBundle.MergeCompletes | actors/lib/instance_setup.rb:257-271 | when ids are unique per kind and every not-ready executable has an entry, nothing is pending after the merge |
| BootBundle.NotReadyIdsOf | actors/lib/instance_setup.rb:248-251 | the loop returns exactly the not-ready ids of the requested kind, in order |
| BootBundle.PendingTitlesOf | actors/lib/instance_setup.rb:270-274 | the loop returns exactly the titles of the pending executables, in order |
| BootBundle.AnyNotReady | actors/lib/instance_setup.rb:221 | true exactly when some executable is not ready |
| BootBundle.FindFirst | actors/lib/instance_setup.rb:259 | the loop finds what `FirstWith` specifies |
| BootBundle.FirstWithIs | actors/lib/instance_setup.rb:259 | a matching index with no earlier match is the one `detect` finds |
| BootBundle.FirstWithNone | actors/lib/instance_setup.rb:259 | with no match, `detect` finds nothing |
| BootBundle.MergeInPlace | actors/lib/instance_setup.rb:257-269 | updating the array entry by entry leaves exactly `Merge` of the old bundle |
| FrozenDate.ParseIsoDate | actors/lib/instance_setup.rb:188 | a date that parses is a valid calendar day with a year from 1 to 9999 |
| FrozenDate.IsoTextRoundTrip | actors/lib/instance_setup.rb:188 | the text written for a valid day parses back to that day |
| FrozenDate.PreviousDaySpec | actors/lib/instance_setup.rb:188 | the previous day is valid, earlier, and its next day is the original |
| FrozenDate.NextDaySpec | actors/lib/instance_setup.rb:188 | the next day is valid, later, and its previous day is the original |
| FrozenDate.PreviousDayExamples | actors/lib/instance_setup.rb:188 | month, year, leap-year, Julian and calendar-reform boundaries of the previous day |
| FrozenDate.CompactTextSpec | actors/lib/instance_setup.rb:188-189 | removing the dashes from a day's text leaves eight digits that spell its year, month and day |
| FrozenDate.FrozenStampSpec | actors/lib/instance_setup.rb:186-190 | for a date that parses, the stamp is eight digits naming a valid, earlier day whose next day is the frozen date |
| FrozenDate.PadSpec | actors/lib/instance_setup.rb:188 | a zero-padded number has the requested width, only digits, and reads back as the number |
| Cook.Downloader.New | lib/instance/cook/downloader.rb:55-59 | an empty hostname list raises `ArgumentError` before any lookup; otherwise construction succeeds exactly when every hostname resolves, with the IP table `Table` and no download yet; a failure names the first hostname that did not resolve |
| Cook.Resolve | lib/instance/cook/downloader.rb:109-127 | lookups are made in order and stop at the first failure, which is re-raised; on success the table equals `Table`, whatever the shuffle |
| Cook.AssignAll | lib/instance/cook/downloader.rb:121-124 | the loop leaves every address of the list mapped to the hostname and every other entry as it was |
| Cook.ShuffleSameMap | lib/instance/cook/downloader.rb:121 | any permutation of the addresses assigns the same addresses, so the table does not depend on the shuffle |
| Cook.TableSpec | lib/instance/cook/downloader.rb:109-127 | an address is a key exactly when some hostname resolved to it, and it maps to the last such hostname |
| Cook.TableValues | lib/instance/cook/downloader.rb:121-124 | every value of the table is one of the input hostnames |
| Cook.SharedAddressHidesHostname | lib/instance/cook/downloader.rb:121-124 | two hostnames sharing one address leave only the later one in the table |
| Cook.Downloader.Download | lib/instance/cook/downloader.rb:73-83 | records the sanitised resource; a transfer that raises leaves size and speed at 0 (details then read "(0 B) at 0 B/s"); a successful one returns the file and records its size and speed |
| Cook.DetailsAfterReset | lib/instance/cook/downloader.rb:90-92 | the summary after a reset is `Downloaded '<resource>' (0 B) at 0 B/s` |
| Cook.Downloader.Details | lib/instance/cook/downloader.rb:90-92 | the summary opens with `Downloaded '<resource>' (`, nil interpolating as empty; before any download (size and speed nil, so `to_i` gives 0) it reads `(0 B) at 0 B/s` |
| Cook.ScaledTextReadsBack | lib/instance/cook/downloader.rb:91 | each `scale(...).join(' ')` part reads back as an integer `n` and a unit with `n` units <= the value < `n + 1` units, and `n` < 1024 below a gibibyte |
| Cook.DetailsKilobytes | lib/instance/cook/downloader.rb:90-92 | 2048 bytes at 1536 bytes a second read `Downloaded 'f' (2 KB) at 1 KB/s` |
| Cook.Downloader.GetBalancer | lib/instance/cook/downloader.rb:161-164 | the balancer is built over the table's addresses on first use and the same one is returned afterwards |
| Cook.IsFatal | lib/instance/cook/downloader.rb:165-173 | an error is fatal exactly when its class is in the default fatal set, or it has an HTTP code in 400..499 other than 408 |
| Cook.FatalCodes | lib/instance/cook/downloader.rb:165-173 | 404 aborts; 408, 500, 503, 302 and a missing code fail over; a default-fatal class always aborts |
| Cook.ParseSpec | lib/instance/cook/downloader.rb:141-148 | for `NoResult`, the text between the first "Exceptions: " and the next one or the end, nil when the marker is missing or no field after it is non-empty (so nil when nothing follows it); for other exceptions, the class name |
| Cook.RepeatedMarkerThenText | lib/instance/cook/downloader.rb:141-148 | "x Exceptions: Exceptions: y" parses to the empty string that sits between the two markers |
| Cook.RepeatedMarkerAtEnd | lib/instance/cook/downloader.rb:141-148 | "x Exceptions: Exceptions: " parses to nil, because every field after the first marker is empty |
| Cook.SanitizeResourceSpec | lib/instance/cook/downloader.rb:213-216 | the result is the text before the first `?`; a non-empty name without `?` comes back whole; the result is nil exactly when the name is empty or made only of `?` |
| Cook.ScaleSpec | lib/instance/cook/downloader.rb:229-240 | each unit is chosen for exactly its range (negatives are GB); the value is the floor of bytes over the unit and is below 1024 outside GB |
| Cook.ScaleBoundaries | lib/instance/cook/downloader.rb:229-240 | the tiers' boundary values |
| Cook.MbTierLowIsXor | lib/instance/cook/downloader.rb:235 | the written MB lower bound `1024^2` is 1026, inside the KB range |

## Left out

- Event-machine scheduling (`EM.next_tick`, `EM.defer`, the thread pool size) and the 20-second sleep between missing-input requests. The order of the continuations is kept; time is not modelled.
- The grace timer's 30-second duration. Expiry is an explicit event (`GraceExpires`).
- The remote services, the login manager, the auditor proxy, the repository configurators and the executable sequence. Their answers are method parameters; `update_policy`'s result is the `applied` parameter, and the run's verdict is `OnBundleRun`'s parameter.
- A configurator's `generate` that raises. It is recorded as a call made, since the error is rescued and the loop goes on.
- The `apt-get update` call and its output appended to the audit (`actors/lib/instance_setup.rb:197-200`), because that is a shell command.
- `report_state` (`actors/lib/instance_setup.rb:49-51`). It only reads the state field.
- Actors.InstanceSetup.OnMissingInputs: titles are taken from each executable's `title` field; `RightScriptsCookbook.recipe_title` is not part of this model.
- The logger calls (`RightLinkLog`, `logger`). They have no effect on state.
- FrozenDate.ParseIsoDate: accepts only `YYYY-MM-DD` with years 1 to 9999. Ruby's `Date.parse` is lenient and accepts many other layouts; in the model those count as dates that do not parse, so their repositories are skipped.
- Cook.Downloader.New: the single-string form of `hostnames` (`downloader.rb:57`) is not modelled; the list form is.
- Cook.Downloader.Download: the speed is the measured value passed in. The floating-point division of size by elapsed time (`downloader.rb:81`) and the clock are not modelled. `_download` is the subclass's transfer, given as its outcome.
- Cook.Downloader.GetBalancer: the balancer is its set of endpoints. The order of `ips.keys`, the sticky policy, failover and the `NoResult` it raises belong to the balancer library, which is not part of this model.
- `get_ca_file` and `get_http_client`. They only build file paths and client objects.
- Cook.Resolve: DNS is a map from hostname to addresses, and a hostname missing from it is a lookup that raises. The shuffle is an arbitrary permutation.
