# borgbutler core, modelled in Dafny

borgbutler is a web front end for the borg backup tool. Its server drives
borg as an external program. It builds a borg command line, runs it as a
job in a per-repository queue, and collects the job's stdout and stderr.
It then reads the result: the version string, the repository of
`borg info`, the archives of `borg list`, the details of one archive, and
the file list of an archive. The results are kept in a cache of
repositories and a cache of archive file lists.

This project models that sequential logic as immutable datatypes and pure
functions, and proves properties of it:

- `commands.dfy`: the borg command and the argument vector
  `BorgJob.buildCommandLine` builds from it. Also the flattened command-line
  string that serves as a job's id.
- `command_line_job.dfy`: the state of `AbstractCommandLineJob`. This covers
  the cached command line and id, the output buffers, the abbreviated error
  text and environment variables.
- `borg_job.dfy`: `BorgJob`. This covers stderr progress messages, the
  file-listing stdout handler, `$USER` substitution in the environment,
  `execute` over an abstract process run, `clone` and `cleanUp`.
- `borg_commands.dfy`: `BorgCommands.version`, `init`, `info` (repository
  and archive), `list`, `listArchiveContent` and the guards of `getResult`.
- `butler_cache.dfy`: `ButlerCache`, with both caches as maps. The borg
  commands each lookup issues are recorded, so hits and misses can be told
  apart.
- `job_queue.dfy`: the job queue as its test describes it, a sequential
  state machine over `(id, status)` entries.
- `text.dfy`, `borg_json.dfy`, `data.dfy` and `wrappers.dfy` are support.
  They hold string utilities in the sense of commons-lang, the records
  borg's JSON decodes to, the server's repository and archive records, and
  `Option`.

Java `null` is `None`. JSON decoding is a bundle of uninterpreted functions
(`Parsers`), each of which may fail. Running a process is a parameter: a
function from command line and environment to a `ProcessRun`, which holds
the output lines in arrival order and whether the run completed normally. A
non-zero exit or a launch failure counts as not completed. The clock
(`now`), `DateUtils.format`, the configured borg executable, the server's
process environment and the user name are also parameters, collected in
`BorgCommands.Borg`.

Some behaviour comes from classes that are not part of this model, and is
assumed as follows:

- `BorgCommand.getRepoArchive` is the repository, followed by `::` and the
  archive name when there is one.
- `Configuration.getRepoConfig(key)` is the first configuration whose
  repository or id equals the key.
- `Archive.hasInfoData` means the statistics are present.
- `Repository.add` appends an archive and marks the archive list as loaded.
- `AbstractJob.failed` sets the status to FAILED.
- `BorgCommandResult.getStatus` is ERROR when there is no job result.
- `getEnvironmentVariables(true)` is the configuration's variable list.
- The file-list cache is keyed by repository and archive name.
- commons-exec skips a null argument. It splits a variable at its first
  `=` and throws on a variable without one.
- commons-exec `CommandLine.addArgument` stores the argument as given; it
  only calls `StringUtils.quoteArgument` to reject an argument holding both
  quote kinds. `getArguments` renders every stored argument on each call:
  it cleans it (trims it and strips leading and trailing quote characters)
  and quotes it in single quotes if it holds a double quote, in double
  quotes if it holds a single quote or a space, bare otherwise. `getExecutable` turns every backslash into `/`, the file
  separator of a Unix system.
- `StringUtils.split`, `isBlank` and `abbreviateMiddle` behave as
  documented. Whitespace is the set of `Character.isWhitespace`. Digits
  and case folding are ASCII only.
- A JCS cache refuses to store a null value: `put` throws.

## Model

| member | source | states |
|---|---|---|
| Commands.CompactAppend | borgbutler-core/src/main/java/de/micromata/borgbutler/BorgJob.java:55-68 | skipping null entries distributes over concatenation, so the arguments kept from a list stay in their relative order |
| Commands.CompactAllPresent | borgbutler-core/src/main/java/de/micromata/borgbutler/BorgJob.java:55-60 | a list with no null entry contributes every entry, position by position |
| Commands.AddEach | borgbutler-core/src/main/java/de/micromata/borgbutler/BorgJob.java:64-68 | adding a list argument by argument appends exactly its non-null entries and keeps the executable |
| Commands.AddArguments | borgbutler-core/src/main/java/de/micromata/borgbutler/BorgJob.java:55-60 | a null list adds nothing; otherwise its non-null entries are appended |
| Commands.BuildCommandLine | borgbutler-core/src/main/java/de/micromata/borgbutler/BorgJob.java:44-71 | no command line exactly when there is no command or the executable is missing or blank; otherwise the configured executable with subcommand, flags, REPO[::ARCHIVE] and arguments in that order, nulls left out |
| Commands.CommandLineRoundTrip | borgbutler-core/src/main/java/de/micromata/borgbutler/jobs/AbstractCommandLineJob.java:48-50 | reading the flattened string back (executable up to the first space, then each argument up to its closing quote or the next space) gives the executable as commons-exec renders it and the arguments as getArguments cleaned them before quoting, for every command line whose executable has no space and whose arguments commons-exec accepts and are non-empty once cleaned |
| Commands.SameIdIffSameCommandLine | borgbutler-core/src/main/java/de/micromata/borgbutler/jobs/AbstractCommandLineJob.java:37-52 | two command lines of that kind (executable without a space, every argument accepted by commons-exec and non-empty once cleaned) have equal id strings if and only if they agree on the rendered executable and the cleaned arguments |
| Commands.OuterQuotesShareId | borgbutler-core/src/main/java/de/micromata/borgbutler/jobs/AbstractCommandLineJob.java:48-49 | an argument given in quotes and the same argument bare are different command lines with the same id, so the converse needs the cleaned arguments |
| CommandLineJob.CommandLineAsString | borgbutler-core/src/main/java/de/micromata/borgbutler/jobs/AbstractCommandLineJob.java:41-52 | the id is null exactly when no command line is cached or buildable; a fresh job's id is the flattened command line; a cached id is returned as is; only the two cached fields change |
| CommandLineJob.IdIsStable | borgbutler-core/src/main/java/de/micromata/borgbutler/jobs/AbstractCommandLineJob.java:41-52 | once a job has an id, asking again, even under another executable, returns the same id and changes nothing |
| CommandLineJob.FreshJobsShareIdIffSameCommandLine | borgbutler-core/src/main/java/de/micromata/borgbutler/jobs/AbstractCommandLineJob.java:37-52 | two fresh jobs whose command lines are of the kind the round trip covers get the same id if and only if the command lines they build agree on the rendered executable and the cleaned arguments |
| CommandLineJob.LinesAppend | borgbutler-core/src/main/java/de/micromata/borgbutler/jobs/AbstractCommandLineJob.java:112-130 | the buffer text of two batches of lines is the concatenation of the two batches' texts |
| CommandLineJob.BufferKeepsLines | borgbutler-core/src/main/java/de/micromata/borgbutler/jobs/AbstractCommandLineJob.java:112-130 | splitting a buffer at newlines gives every line back, in order, followed by the empty text after the last newline |
| CommandLineJob.ProcessStdOutLine | borgbutler-core/src/main/java/de/micromata/borgbutler/jobs/AbstractCommandLineJob.java:112-120 | the stdout buffer grows by the line and a newline; nothing else changes |
| CommandLineJob.ProcessStdErrLine | borgbutler-core/src/main/java/de/micromata/borgbutler/jobs/AbstractCommandLineJob.java:122-130 | the stderr buffer grows by the line and a newline; nothing else changes |
| CommandLineJob.GetErrorString | borgbutler-core/src/main/java/de/micromata/borgbutler/jobs/AbstractCommandLineJob.java:107-110 | a text that fits, or any text under a limit too small for the marker, is returned unchanged; a longer one is cut to at most the limit, as a head and a non-empty tail of the original around the marker |
| CommandLineJob.AddEnvironmentVariable | borgbutler-core/src/main/java/de/micromata/borgbutler/jobs/AbstractCommandLineJob.java:155-159 | a blank variable leaves the map unchanged; a variable without '=' is rejected; otherwise exactly one name (with no '=') is set, and NAME=value reassembles the variable |
| CommandLineJob.AddNamedEnvironmentVariable | borgbutler-core/src/main/java/de/micromata/borgbutler/jobs/AbstractCommandLineJob.java:145-149 | a blank value leaves the map unchanged; otherwise a name without '=' is set to the value |
| BorgJob.NewJob | borgbutler-core/src/main/java/de/micromata/borgbutler/BorgJob.java:34-38 | a new job holds the command, its working directory and description, empty buffers, no id yet and no payload |
| BorgJob.BorgStdErrLine | borgbutler-core/src/main/java/de/micromata/borgbutler/BorgJob.java:73-82 | the stderr buffer is unchanged if and only if the line starts with {"message and decodes, and then the decoded progress replaces the snapshot; any other line is appended to the buffer |
| BorgJob.HandleLine | borgbutler-core/src/main/java/de/micromata/borgbutler/jobs/AbstractCommandLineJob.java:68-78 | (corrected, see ## Findings) a stderr line goes to the stderr handler and a stdout line to the stdout handler (the file-list one for a listing job); only buffers, progress and payload can change |
| BorgJob.ProcessLines | borgbutler-core/src/main/java/de/micromata/borgbutler/jobs/AbstractCommandLineJob.java:68-78 | (corrected, see ## Findings) after any sequence of lines, stderr holds every non-progress error line in order; a plain job's stdout holds every stdout line and its progress is the last progress message; a listing job's payload gains every decodable item, with its time formatted, in order, and its counter grows by the number of regular files |
| BorgJob.FileListStdOutLine | borgbutler-core/src/main/java/de/micromata/borgbutler/BorgCommands.java:226-233 | (corrected) an undecodable line changes nothing; a decoded item is appended to the payload with its modification time formatted and its type, path and size kept, and the counter and progress advance by one exactly for items of type "-"; the buffers stay |
| BorgJob.FileListStdOutLineAsWritten | borgbutler-core/src/main/java/de/micromata/borgbutler/BorgCommands.java:227-229 | the handler as written fails exactly on a line that does not decode, and otherwise agrees with the corrected one |
| BorgJob.FileListAsWrittenFailsOnUndecodable | borgbutler-core/src/main/java/de/micromata/borgbutler/BorgCommands.java:227-228 | an empty stdout line the decoder rejects makes the handler as written fail, while the corrected handler leaves the job unchanged |
| BorgJob.Displayed | borgbutler-core/src/main/java/de/micromata/borgbutler/BorgCommands.java:227-228 | the item a listing job stores keeps borg's type, path and size and carries the modification time as DateUtils formats it |
| BorgJob.ProcessLinesAsWritten | borgbutler-core/src/main/java/de/micromata/borgbutler/BorgCommands.java:226-229 | with the handler as written, an undecodable stdout line ends the reading of stdout while stderr still gets every error line; without such a line it agrees with the corrected processing |
| BorgJob.PumpStopsAtUndecodable | borgbutler-core/src/main/java/de/micromata/borgbutler/BorgCommands.java:227-229 | an undecodable line followed by a good one leaves the payload as it was, while the corrected processing adds the good line's item |
| BorgJob.BlankHasNoPlaceholder | borgbutler-core/src/main/java/de/micromata/borgbutler/BorgJob.java:94 | substituting the user name leaves a blank variable unchanged, so it is still skipped |
| BorgJob.AddVariables | borgbutler-core/src/main/java/de/micromata/borgbutler/BorgJob.java:90-97 | the environment is built if and only if every variable, after "$USER" is replaced by the user name, is blank or holds "="; then every name some variable sets gets the value of the last variable that sets it, every other process variable keeps its value and nothing else is added; otherwise the first rejected variable is reported; only blank variables give back the process environment |
| BorgJob.GetEnvironment | borgbutler-core/src/main/java/de/micromata/borgbutler/BorgJob.java:85-98 | no environment of its own if and only if there is no repository configuration; otherwise the process environment with each name set by the last of the configuration's substituted variables that sets it, or the first rejected variable |
| BorgJob.AddVariablesIgnoresUser | borgbutler-core/src/main/java/de/micromata/borgbutler/BorgJob.java:92-96 | variables without "$USER" give the same environment whatever the user name |
| BorgJob.EnvironmentIgnoresUserWithoutPlaceholder | borgbutler-core/src/main/java/de/micromata/borgbutler/BorgJob.java:85-98 | a repository whose variables do not use "$USER" gets the same environment for every user |
| BorgJob.Execute | borgbutler-core/src/main/java/de/micromata/borgbutler/jobs/AbstractCommandLineJob.java:55-99 | (corrected, see ## Findings) no result if and only if there is no id; a result marks the job started and carries the stdout buffer; OK if and only if the process completed; ERROR marks the job failed; a rejected variable fails the run before any output; the buffers and the listing payload hold exactly what the output lines put there |
| BorgJob.Clone | borgbutler-core/src/main/java/de/micromata/borgbutler/BorgJob.java:109-130 | the copy keeps the original's id string, status, flags, timestamps and progress; its command keeps only the repository configuration; it has fresh buffers and no payload |
| BorgJob.CloneKeepsId | borgbutler-core/src/main/java/de/micromata/borgbutler/BorgJob.java:113-118 | a clone answers with the original's id even though its own command would build another command line |
| BorgJob.CleanUp | borgbutler-core/src/main/java/de/micromata/borgbutler/BorgJob.java:133-136 | both buffers and the payload are released, so the job takes no more output; the id, status and progress are kept |
| BorgCommands.RunJob | borgbutler-core/src/main/java/de/micromata/borgbutler/BorgCommands.java:285-290 | running a command gives no result exactly when no command line can be built |
| BorgCommands.VersionCommandLine | borgbutler-core/src/main/java/de/micromata/borgbutler/BorgCommands.java:35-38 | the version call is the executable followed by --version alone |
| BorgCommands.ArchiveInfoCommandLine | borgbutler-core/src/main/java/de/micromata/borgbutler/BorgCommands.java:170-176 | the archive details call is info --json --log-json --progress REPO::ARCHIVE, in that order |
| BorgCommands.VersionOf | borgbutler-core/src/main/java/de/micromata/borgbutler/BorgCommands.java:42-58 | no version without an OK result or without "borg" in any case; otherwise the last whitespace token is the version if and only if it starts with a digit |
| BorgCommands.VersionOfMacOutput | borgbutler-core/src/main/java/de/micromata/borgbutler/BorgCommands.java:52 | "borg-macosx64 1.1.8" gives the version 1.1.8 |
| BorgCommands.VersionOfForeignOutput | borgbutler-core/src/main/java/de/micromata/borgbutler/BorgCommands.java:49-57 | output that does not name borg gives no version, even if it looks like one |
| BorgCommands.Version | borgbutler-core/src/main/java/de/micromata/borgbutler/BorgCommands.java:35-61 | a version is a non-empty single token starting with a digit, read from the --version run |
| BorgCommands.Init | borgbutler-core/src/main/java/de/micromata/borgbutler/BorgCommands.java:70-85 | init as written reports false whatever the outcome |
| BorgCommands.InitCorrected | borgbutler-core/src/main/java/de/micromata/borgbutler/BorgCommands.java:66-79 | (corrected) true if and only if the job ended OK and printed nothing but whitespace |
| BorgCommands.InitFailsOnSuccess | borgbutler-core/src/main/java/de/micromata/borgbutler/BorgCommands.java:78-84 | a borg that completes silently makes init report failure, while the corrected version reports success |
| BorgCommands.FillErrorStringAsWritten | borgbutler-core/src/main/java/de/micromata/borgbutler/BorgCommands.java:275-283 | the guard as written fails exactly when there is no job result, and otherwise agrees with the corrected one |
| BorgCommands.FillErrorString | borgbutler-core/src/main/java/de/micromata/borgbutler/BorgCommands.java:275-283 | (corrected) an absent result stays absent; status and output are kept; a failed result gets an error text of at most 2000 characters, the whole stderr text when it fits; an OK result is untouched |
| BorgCommands.FillErrorStringBlankExecutable | borgbutler-core/src/main/java/de/micromata/borgbutler/BorgCommands.java:279-280 | with a blank borg executable the guard as written fails, while the corrected info call returns ERROR and no repository |
| BorgCommands.RepositoryOf | borgbutler-core/src/main/java/de/micromata/borgbutler/BorgCommands.java:108-117 | the repository carries borg's id, location, cache, encryption and security directory, the configuration's name and display name, the refresh time, and no archives yet |
| BorgCommands.RepositoryInfo | borgbutler-core/src/main/java/de/micromata/borgbutler/BorgCommands.java:94-120 | the result carries the job result with its error text; there is a repository if and only if the run was OK and its output decodes, and it is the one that output describes |
| BorgCommands.AddListed | borgbutler-core/src/main/java/de/micromata/borgbutler/BorgCommands.java:148-158 | one archive is appended per listed archive, in order, each with the listed name and id, the formatted start and time, and the repository's id, name and display name; the earlier archives and all other fields stay |
| BorgCommands.ListArchives | borgbutler-core/src/main/java/de/micromata/borgbutler/BorgCommands.java:129-159 | a failed run, an undecodable listing or one without archives leaves the repository as it was; otherwise only the modification time (formatted), the refresh time and the archive list change, and one archive per listed archive is appended in borg's order with its name, id, formatted start and time and the display name |
| BorgCommands.ListAppendsAgain | borgbutler-core/src/main/java/de/micromata/borgbutler/BorgCommands.java:148-158 | listing twice appends the archives twice, since list never replaces a loaded list |
| BorgCommands.ApplyArchiveInfo | borgbutler-core/src/main/java/de/micromata/borgbutler/BorgCommands.java:177-208 | without an OK, decodable answer nothing changes; otherwise only the repository times change, the archive's cache and encryption are set, its name, id, time and repository fields are kept, and the detail fields come from the first reported archive when there is one |
| BorgCommands.ArchiveInfo | borgbutler-core/src/main/java/de/micromata/borgbutler/BorgCommands.java:170-208 | a failed run or an undecodable answer leaves repository and archive as they were; an answer sets the refresh time and the archive's cache; the archive keeps its name, id, time and repository fields and the repository its archives, id, name and location |
| BorgCommands.ArchiveInfoUsesOnlyFirst | borgbutler-core/src/main/java/de/micromata/borgbutler/BorgCommands.java:195-208 | answers that agree on the repository, cache, encryption and first archive give the same result, whatever further archives they list |
| BorgCommands.FileListJob | borgbutler-core/src/main/java/de/micromata/borgbutler/BorgCommands.java:212-236 | the listing job runs list --json-lines on REPO::ARCHIVE, starts with empty buffers, an empty item list, no progress yet and the file counter of the archive |
| BorgCommands.ListArchiveContent | borgbutler-core/src/main/java/de/micromata/borgbutler/BorgCommands.java:211-244 | (corrected, see ## Findings) no list without a command line or with a rejected variable; otherwise a list if and only if the run completed, and it holds the items of every decodable stdout line in order, times formatted |
| BorgCommands.FileListProgress | borgbutler-core/src/main/java/de/micromata/borgbutler/BorgCommands.java:219-223 | the listing starts with the message "Getting file list...", counter 0 and the archive's number of files as total, or 0 without statistics |
| ButlerCache.GetRepositoryAt | borgbutler-core/src/main/java/de/micromata/borgbutler/cache/ButlerCache.java:59-76 | (corrected, see ## Findings) a cached repository with a location is returned without calling borg; anything else calls info once and returns its repository, which is stored and sets the configuration's id; no repository leaves the cache as it was |
| ButlerCache.LookupAt | borgbutler-core/src/main/java/de/micromata/borgbutler/cache/ButlerCache.java:59-76 | the same lookup for any answer of borg info: the cached repository on a hit, the info answer otherwise; only a found repository is stored, and only it sets the configuration's id |
| ButlerCache.GetRepositoryAtAsWritten | borgbutler-core/src/main/java/de/micromata/borgbutler/cache/ButlerCache.java:66-69 | the lookup as written fails exactly when nothing usable is cached and info finds no repository, since it puts null into the cache; otherwise it agrees with the corrected lookup |
| ButlerCache.GetRepositoryAtBlankExecutable | borgbutler-core/src/main/java/de/micromata/borgbutler/cache/ButlerCache.java:66-68 | with a blank borg executable and nothing cached, the lookup as written fails, while the corrected lookup answers none after one info call and caches nothing |
| ButlerCache.LocationlessEntryIsRefetched | borgbutler-core/src/main/java/de/micromata/borgbutler/cache/ButlerCache.java:61-69 | an unreadable entry or one without a location makes the lookup call info |
| ButlerCache.FetchThenHit | borgbutler-core/src/main/java/de/micromata/borgbutler/cache/ButlerCache.java:66-69 | once a lookup returned a repository with a location, the next lookup is a hit with the same answer and no further borg call |
| ButlerCache.AllRepositoriesFrom | borgbutler-core/src/main/java/de/micromata/borgbutler/cache/ButlerCache.java:81-91 | at most one repository per configuration; each configuration costs at most one info call and can only learn its id; earlier configurations and the file-list cache stay |
| ButlerCache.AllRepositoriesOnHits | borgbutler-core/src/main/java/de/micromata/borgbutler/cache/ButlerCache.java:81-91 | when every configuration is cached, no borg call is made, the cache stays and the answer is the cached repository of each configuration, in order |
| ButlerCache.AllRepositoriesDistinct | borgbutler-core/src/main/java/de/micromata/borgbutler/cache/ButlerCache.java:81-91 | with distinct repository locations, the answer is what each configuration's own lookup in the starting cache finds, in order, skipping those without a repository |
| ButlerCache.AllRepositories | borgbutler-core/src/main/java/de/micromata/borgbutler/cache/ButlerCache.java:81-91 | the repositories of all configurations: at most one per configuration and one info call per configuration; with distinct locations, each configuration's own lookup, in order |
| ButlerCache.FindRepository | borgbutler-core/src/main/java/de/micromata/borgbutler/cache/ButlerCache.java:45-49 | the first repository whose name or id is the key, or none exactly when no repository answers to it |
| ButlerCache.GetRepository | borgbutler-core/src/main/java/de/micromata/borgbutler/cache/ButlerCache.java:38-53 | the repository of the first configuration that answers to the key; without one, the first of all repositories whose name or id is the key, or none |
| ButlerCache.GetRepositoryArchives | borgbutler-core/src/main/java/de/micromata/borgbutler/cache/ButlerCache.java:108-119 | no repository gives none; a loaded archive list is returned without calling borg; otherwise at most one list call, and the repository keeps its identity and earlier archives |
| ButlerCache.LoadArchives | borgbutler-core/src/main/java/de/micromata/borgbutler/cache/ButlerCache.java:110-119 | after the lookup: no repository gives none, a loaded list is returned as it is, otherwise at most one list call that keeps the repository's identity and earlier archives |
| ButlerCache.FindArchive | borgbutler-core/src/main/java/de/micromata/borgbutler/cache/ButlerCache.java:147-162 | the first archive whose name or id is the key, or none exactly when no archive answers to it |
| ButlerCache.GetArchiveOf | borgbutler-core/src/main/java/de/micromata/borgbutler/cache/ButlerCache.java:140-169 | no repository or no matching archive gives none; the archive's details are fetched with one info call exactly when forced or missing, and the refreshed archive replaces it in the cached repository |
| ButlerCache.RefreshArchive | borgbutler-core/src/main/java/de/micromata/borgbutler/cache/ButlerCache.java:167-168 | one archive-info call; the refreshed archive keeps its name and id and replaces the old one at its position in the cached repository |
| ButlerCache.GetArchive | borgbutler-core/src/main/java/de/micromata/borgbutler/cache/ButlerCache.java:131-138 | an unconfigured repository gives none and leaves the cache as it was; a result always answers to the key |
| ButlerCache.ForcedReloadAsksBorg | borgbutler-core/src/main/java/de/micromata/borgbutler/cache/ButlerCache.java:163-167 | a forced reload of a found archive always makes exactly one more borg call |
| ButlerCache.GetArchiveContent | borgbutler-core/src/main/java/de/micromata/borgbutler/cache/ButlerCache.java:171-187 | a missing or unnamed archive gives none; a cached list is returned without a call; a miss lists the archive once, caches and returns only a non-empty list, and the file-list cache never holds an empty list |
| ButlerCache.SaveListing | borgbutler-core/src/main/java/de/micromata/borgbutler/cache/ButlerCache.java:177-181 | the listing call is recorded; a non-empty list is cached under the key and returned, anything else caches nothing and returns none |
| ButlerCache.ContentCachedAfterListing | borgbutler-core/src/main/java/de/micromata/borgbutler/cache/ButlerCache.java:175-181 | once a listing was cached, asking again gives the same list with no borg call |
| ButlerCache.ClearAllCaches | borgbutler-core/src/main/java/de/micromata/borgbutler/cache/ButlerCache.java:93-102 | afterwards no repository lookup is a hit and no file list is cached; the configurations stay |
| ButlerCache.ClearedRepositoryLookupCallsBorg | borgbutler-core/src/main/java/de/micromata/borgbutler/cache/ButlerCache.java:93-102 | after clearing, a repository lookup calls info |
| ButlerCache.ClearedContentLookupCallsBorg | borgbutler-core/src/main/java/de/micromata/borgbutler/cache/ButlerCache.java:93-97 | after clearing, a file-list lookup of a named archive calls borg |
| JobQueue.Empty | borgbutler-core/src/test/java/de/micromata/borgbutler/jobs/JobQueueTest.java:44-45 | a new queue satisfies the queue invariant and has size 0 |
| JobQueue.GetQueuedJob | borgbutler-core/src/test/java/de/micromata/borgbutler/jobs/JobQueueTest.java:52-63 | the queued or running job with the id, or none exactly when no entry has it |
| JobQueue.Append | borgbutler-core/src/test/java/de/micromata/borgbutler/jobs/JobQueueTest.java:46-51 | a job whose id is queued or running leaves the queue unchanged and returns that job; otherwise the queue grows by one at the end, and the new job runs if the queue was empty and waits otherwise; the invariant is kept |
| JobQueue.Finish | borgbutler-core/src/test/java/de/micromata/borgbutler/jobs/JobQueueTest.java:61-74 | the running job leaves with its final status, the waiting jobs keep their order and the next one runs; no status moves back |
| JobQueue.Drain | borgbutler-core/src/test/java/de/micromata/borgbutler/jobs/JobQueueTest.java:75-76 | the queue ends empty, and its jobs finish in the order they were queued |
| JobQueue.QueueScenario | borgbutler-core/src/test/java/de/micromata/borgbutler/jobs/JobQueueTest.java:42-77 | the test's sequence of sizes, deduplication, RUNNING and QUEUED states and re-acceptance holds, and the queue ends empty |

## Left out

- Process spawning is not modelled. This covers `DefaultExecutor`, `ExecuteWatchdog`, `PumpStreamHandler`, working directories and cancellation of a running process. A run is an abstract `ProcessRun`.
- Threads are not modelled. This covers the queue executor's threads, waiting and timing, so the queue is a sequential state machine. `JobQueue.java` is not part of this model. Its behaviour is taken from the queue test, and a job appended to an empty queue starts at once.
- JSON decoding, `DateUtils.format` and `LocalDateTime.now()` are uninterpreted functions or parameters.
- The JCS cache implementation, file-list persistence on disk, eviction and `JCS.shutdown` are not modelled. The caches are maps.
- Demo repositories (`DemoRepos`) are simulated data and are not modelled.
- `extractFiles` is not modelled, because it is about filesystem side effects.
- All logging is left out. The descriptions of commands are log text and are left unset.
- Null keys are not modelled: repository keys and archive keys are plain strings.
- `BorgCommands.java:236` resets the listing payload after the job was handed to the queue. The model sets the payload before the run, so the race between that reset and a running job is not modelled.
- Commands.Compact: states only which entries survive, not their order; the order is stated by `Commands.CompactAppend` and `Commands.AddEach`.
- ButlerCache.GetRepositoryArchives: states that at most one list call happens and that earlier archives are kept, but does not state which archives are added. `BorgCommands.ListArchives` states that.
- JobQueue.Drain: finishes every job with the DONE status. Failures of individual jobs are covered by `JobQueue.Finish`.
- Commands.BuildCommandLine: an argument that commons-exec rejects is not modelled as an error. `addArgument` (through `quoteArgument`) throws an `IllegalArgumentException` for an argument holding both quote kinds once cleaned; the model builds the command line anyway, and `Commands.WellFormed` and `Commands.Quotable` name the arguments the round trip needs. The `CommandLine` constructor's exception for an executable that is empty once trimmed is not modelled either; `BorgJob.java:49` already excludes a blank one. The round trip and the id iff also leave out an argument that is empty once cleaned (`""`, say). commons-exec accepts it and renders it as empty text, so the id string holds two adjacent spaces and reading it back loses that argument.
- Commands.FixSeparators: assumes the file separator of a Unix system (`/`); on Windows `getExecutable` would turn slashes into backslashes instead.
- BorgCommands.VersionOf: recognises ASCII digits and ASCII case folding only. `Character.isDigit` and `containsIgnoreCase` also accept other Unicode digits and letters.
- CommandLineJob.GetErrorString: lengths count Unicode scalar values (Dafny `char`), while `String.length` and `abbreviateMiddle` count UTF-16 code units. A stderr of 1001 copies of U+1F600 is 2002 units in Java and is abbreviated to at most 2000 units, perhaps cutting a surrogate pair; here it is 1001 characters and is returned whole. The stdout and stderr buffers are written with the platform charset and read back with the standard one (`AbstractCommandLineJob.java:98`, `:108`, `:115-116`, `:125-126`); the model takes that round trip as identity, which assumes a platform whose default charset is the standard one. `BorgCommands.FillErrorString`'s 2000-character bound inherits both.
- BorgCommands.FillErrorString: its 2000-character bound on the error text counts Unicode scalar values, not UTF-16 code units (see `CommandLineJob.GetErrorString`).
- BorgCommands.RepositoryInfo: yields no repository for an undecodable document. The source dereferences the decoded document without a check (`BorgCommands.java:106-107`).
- BorgCommands.RepositoryInfo: assumes a decoded answer carries its `repository` object. Without one the source fails on `borgRepository.getId()` (`BorgCommands.java:107-109`); the decoded record here always holds it, so that failure is not modelled.
- BorgCommands.ListArchives: assumes a decoded listing with archives carries its `repository` object. Without one the source fails on `repoList.getRepository()` (`BorgCommands.java:146`) before any archive is added; that failure is not modelled.
- BorgCommands.ApplyArchiveInfo: assumes a decoded archive answer carries its `repository` object. Without one the source fails on `archiveInfo.getRepository()` (`BorgCommands.java:187`) before the archive is updated; that failure is not modelled.
- BorgCommands.ArchiveInfo: inherits the `ApplyArchiveInfo` assumption about the `repository` object (`BorgCommands.java:187`).
- ButlerCache.GetRepositoryAt: takes the repository content of the `BorgCommandResult` that `BorgCommands.info` returns; `ButlerCache.java:67` assigns the result itself to a `Repository`. The corrected form also calls the corrected error-text guard of `BorgCommands.FillErrorString`.
- ButlerCache.GetArchiveContent: passes the archive to `listArchiveContent`; `ButlerCache.java:177` passes the archive's name where the method takes the archive.
- ButlerCache.GetRepositoryArchives: returns the repository unchanged when no configuration answers to the repository's name. The source looks the configuration up by that name (`ButlerCache.java:116`) and would fail inside `list`.
- ButlerCache.LoadArchives: returns the repository unchanged when no configuration answers to the repository's name. The source looks the configuration up by that name (`ButlerCache.java:116`) and would fail inside `list`.
- ButlerCache.AllRepositories: states what each configuration's lookup answers only for configurations with distinct repository locations, or when all of them are cached. With two configurations of one location, the second lookup sees what the first stored.
- BorgJob.ProcessLinesAsWritten: a stdout pump that stopped reading is modelled as dropping the later stdout lines. A borg process that then blocks on a full pipe is not modelled.
- BorgJob.HandleLine, BorgJob.ProcessLines, BorgJob.Execute and BorgCommands.ListArchiveContent use the corrected file-list handler, which skips an undecodable line. `BorgJob.ProcessLinesAsWritten` models the pump as written.

## Findings

| source | as written | input that shows it | evidently intended | confidence | as-written member | corrected member |
|---|---|---|---|---|---|---|
| borgbutler-core/src/main/java/de/micromata/borgbutler/BorgCommands.java:279-280 | when the job result is null, the guard still calls `setErrorString` on it | a blank configured borg executable: no command line, so `execute` returns null | attach the error text only to a result that exists; a missing result reads as ERROR | high, not executed | BorgCommands.FillErrorStringAsWritten (shown by BorgCommands.FillErrorStringBlankExecutable) | BorgCommands.FillErrorString |
| borgbutler-core/src/main/java/de/micromata/borgbutler/BorgCommands.java:227-229 | the decoded item is used without a null check; the exception ends the stdout pump, so every later stdout line is lost | an empty stdout line, or any other line the decoder rejects, followed by a good line | skip a line that does not decode | medium, not executed | BorgJob.FileListStdOutLineAsWritten and BorgJob.ProcessLinesAsWritten (shown by BorgJob.FileListAsWrittenFailsOnUndecodable and BorgJob.PumpStopsAtUndecodable) | BorgJob.FileListStdOutLine, used by BorgJob.ProcessLines |
| borgbutler-core/src/main/java/de/micromata/borgbutler/BorgCommands.java:79-84 | both the failure path and the success path return false, and the success path logs an error | a borg that completes with no output for a repository without environment variables | return true when the job is OK and printed nothing, as the method's documentation says | high, not executed | BorgCommands.Init (shown by BorgCommands.InitFailsOnSuccess) | BorgCommands.InitCorrected |
| borgbutler-core/src/main/java/de/micromata/borgbutler/cache/ButlerCache.java:66-68 | the repository `info` returns is put into the cache even when it is null | a blank configured borg executable and nothing cached: `info` finds no repository, and the cache refuses the null value | store only a repository that was found | medium, not executed (assumes the JCS cache refuses null values) | ButlerCache.GetRepositoryAtAsWritten (shown by ButlerCache.GetRepositoryAtBlankExecutable) | ButlerCache.GetRepositoryAt |
