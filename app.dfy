/**
 * The application's state machine (main.go, Model, Init, getDiskInfoCmd and
 * Update): the model holds the parsed records and an error; Init asks for
 * the disk query; the query's outcome comes back as a message; Update
 * stores it and quits, and quits on `q`, `ctrl+c` and `esc`.
 *
 * Running `df -k` is outside the model: its outcome, the report or the
 * failure's message, is a parameter. An error is represented by its text.
 */
module App {
  import opened Wrappers
  import opened DiskParser

  /** The application state: the records shown, and the error if any. */
  datatype Model = Model(diskInfos: seq<DiskInfo>, err: Option<string>)

  /** The messages Update distinguishes: a key press (by its name), the
      parsed records, an error, and anything else. */
  datatype Msg =
    | KeyMsg(key: string)
    | DiskInfosMsg(infos: seq<DiskInfo>)
    | ErrorMsg(error: string)
    | OtherMsg

  /** The commands handed back to the runtime: none, quit, or run the
      disk query. */
  datatype Cmd = NoCmd | QuitCmd | QueryDiskInfo

  /** What running `df -k` yields: its standard output, or a failure. */
  datatype ExecOutcome = ExecOutput(output: string) | ExecFailed(message: string)

  /** The state the program starts in: no records and no error. */
  const Initial := Model([], None)

  /** Init: the first command is the disk query. */
  function Init(m: Model): Cmd
  {
    QueryDiskInfo
  }

  /** getDiskInfoCmd: the message the disk query produces from the outcome
      of `df -k`. */
  function DiskInfoMsg(outcome: ExecOutcome): Msg
  {
    match outcome
    case ExecFailed(e) => ErrorMsg(e)
    case ExecOutput(o) => DiskInfosMsg(ParseDf(o))
  }

  predicate IsQuitKey(key: string) {
    key == "q" || key == "ctrl+c" || key == "esc"
  }

  /** Update: the new state and the next command. The state changes only
      together with a quit, and Update never starts a new query. */
  function Update(m: Model, msg: Msg): (r: (Model, Cmd))
    ensures r.1 == QuitCmd || r.0 == m
    ensures r.1 != QueryDiskInfo
  {
    match msg
    case KeyMsg(k) => if IsQuitKey(k) then (m, QuitCmd) else (m, NoCmd)
    case DiskInfosMsg(ds) => (Model(ds, None), QuitCmd)
    case ErrorMsg(e) => (m.(err := Some(e)), QuitCmd)
    case OtherMsg => (m, NoCmd)
  }

  // ---------------------------------------------------------------------------

  /** Key presses never change the state; exactly `q`, `ctrl+c` and `esc`
      quit, every other key is ignored. */
  lemma UpdateKey(m: Model, key: string)
    ensures Update(m, KeyMsg(key)).0 == m
    ensures Update(m, KeyMsg(key)).1 == QuitCmd <==> key in {"q", "ctrl+c", "esc"}
    ensures Update(m, KeyMsg(key)).1 != QuitCmd ==> Update(m, KeyMsg(key)).1 == NoCmd
  {
  }

  /** The records replace whatever was there, clear the error, and quit. */
  lemma UpdateRecords(m: Model, ds: seq<DiskInfo>)
    ensures Update(m, DiskInfosMsg(ds)) == (Model(ds, None), QuitCmd)
  {
  }

  /** An error is stored, the records are kept, and the program quits. */
  lemma UpdateError(m: Model, e: string)
    ensures Update(m, ErrorMsg(e)).0.err == Some(e)
    ensures Update(m, ErrorMsg(e)).0.diskInfos == m.diskInfos
    ensures Update(m, ErrorMsg(e)).1 == QuitCmd
  {
  }

  /** The program quits exactly on a quit key, the records, or an error. */
  lemma UpdateQuits(m: Model, msg: Msg)
    ensures Update(m, msg).1 == QuitCmd <==>
      (msg.KeyMsg? && IsQuitKey(msg.key)) || msg.DiskInfosMsg? || msg.ErrorMsg?
  {
  }

  /** Handling the same message twice leaves the same state as once. The
      source does not say so; it follows from Update's cases. */
  lemma UpdateIdempotent(m: Model, msg: Msg)
    ensures Update(Update(m, msg).0, msg) == Update(m, msg)
  {
  }

  /** One run: from the initial state, Init's query, then Update on its
      message, quits with the parsed records, or with the error. */
  lemma Run(outcome: ExecOutcome)
    ensures Init(Initial) == QueryDiskInfo
    ensures Update(Initial, DiskInfoMsg(outcome)).1 == QuitCmd
    ensures outcome.ExecOutput? ==>
      Update(Initial, DiskInfoMsg(outcome)).0 == Model(ParseDf(outcome.output), None)
    ensures outcome.ExecFailed? ==>
      Update(Initial, DiskInfoMsg(outcome)).0 == Model([], Some(outcome.message))
  {
  }
}
