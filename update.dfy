/**
  The safe update of the Unbound include file at the end of a run: create the
  file if it is missing, compare it with the rendered text, and only when they
  differ back it up, overwrite it, ask `unbound-checkconf` whether the result is
  valid, and then either restart Unbound or restore the backup.

  The file system is a store from paths to contents; the service is a restart
  counter. Everything outside the program (whether a system call or an external
  command succeeds, what `unbound-checkconf` answers) is an oracle in `Env`.
  `log.Fatalf` ends the process, so every fatal error ends the cycle in `Abort`.
 */
module Update {
  import opened Wrappers

  const BACKUP_SUFFIX := ".bak"

  /** What the store holds and how often Unbound has been restarted. */
  datatype State = State(files: map<string, string>, restarts: nat)

  /** How `os.Create` and `os.Chmod` in `createFileIfNotExists` fare. */
  datatype CreateStep = CreateOk | CreateFails | ChmodFails

  /** How `writeContentsToFile` fares: `WriteFails(n)` means `WriteString` stopped
      with an error after the first `n` characters had reached the file. */
  datatype WriteStep = WriteOk | OpenFails | TruncateFails | WriteFails(written: nat)

  /** The answers of the world outside the program for one cycle. */
  datatype Env = Env(
    create: CreateStep,  // creating the missing file and setting its mode
    readOk: bool,        // opening and reading the file to hash it
    backupOk: bool,      // `cp path path.bak`
    write: WriteStep,    // opening, truncating and writing the file
    checkOk: bool,       // `unbound-checkconf` exits with status 0
    rollbackOk: bool,    // `cp path.bak path`
    restartOk: bool)     // `systemctl restart unbound`

  /** The `log.Fatalf` that ended the run. */
  datatype Failure =
    | CreateFailed | ChmodFailed | ReadFailed | BackupFailed
    | WriteFailed | RollbackFailed | RestartFailed

  datatype Outcome =
    | NoOp                 // the file already holds the text
    | Applied              // new text written, checked and Unbound restarted
    | RolledBack           // the check failed and the backup was restored
    | Abort(reason: Failure)

  function BackupPath(path: string): string { path + BACKUP_SUFFIX }

  /** The content the cycle compares with: the file, or the empty file it creates. */
  function Before(s: State, path: string): string
  {
    if path in s.files then s.files[path] else ""
  }

  /** The file after `writeContentsToFile` on an existing file. */
  function Written(old_content: string, text: string, step: WriteStep): string
  {
    match step
    case WriteOk => text
    case OpenFails => old_content
    case TruncateFails => old_content
    case WriteFails(n) => if n < |text| then text[..n] else text
  }

  /** One run of main.go's final block, on the store `s`: the outcome and the new state. */
  function Cycle(s: State, path: string, text: string, env: Env): (Outcome, State)
  {
    if path !in s.files && env.create == CreateFails then (Abort(CreateFailed), s)
    else
      var created := s.(files := s.files[path := Before(s, path)]);
      if path !in s.files && env.create == ChmodFails then (Abort(ChmodFailed), created)
      else if !env.readOk then (Abort(ReadFailed), created)
      else if Before(s, path) == text then (NoOp, created)
      else if !env.backupOk then (Abort(BackupFailed), created)
      else
        var backedUp := created.(files := created.files[BackupPath(path) := Before(s, path)]);
        var written := backedUp.(files := backedUp.files[path := Written(Before(s, path), text, env.write)]);
        var restored := written.(files := written.files[path := written.files[BackupPath(path)]]);
        if env.write != WriteOk then
          if env.rollbackOk then (Abort(WriteFailed), restored) else (Abort(RollbackFailed), written)
        else if env.checkOk then
          if env.restartOk then (Applied, written.(restarts := s.restarts + 1))
          else (Abort(RestartFailed), written)
        else if env.rollbackOk then (RolledBack, restored)
        else (Abort(RollbackFailed), written)
  }

  /** The file system and the service, changed in place by the helpers of main.go. */
  class Server {
    var files: map<string, string>
    var restarts: nat

    function Snapshot(): State
      reads this
    {
      State(files, restarts)
    }

    constructor (files0: map<string, string>, restarts0: nat)
      ensures files == files0 && restarts == restarts0
    {
      files := files0;
      restarts := restarts0;
    }

    /** `createFileIfNotExists`: a missing file is created empty; a failure of
        `os.Create` leaves nothing behind, a failure of `os.Chmod` leaves the empty file. */
    method CreateFileIfNotExists(path: string, create: CreateStep) returns (fatal: Option<Failure>)
      modifies this
      ensures path in old(files) ==> fatal == None && files == old(files)
      ensures path !in old(files) ==>
        match create
        case CreateOk => fatal == None && files == old(files)[path := ""]
        case CreateFails => fatal == Some(CreateFailed) && files == old(files)
        case ChmodFails => fatal == Some(ChmodFailed) && files == old(files)[path := ""]
      ensures restarts == old(restarts)
    {
      fatal := None;
      if path !in files {
        if create == CreateFails {
          return Some(CreateFailed);
        }
        files := files[path := ""];
        if create == ChmodFails {
          return Some(ChmodFailed);
        }
      }
    }

    /** `compareUpdatedContentsWithActualFile`: the SHA-256 of the text against that of
        the file, read here as equality of contents; a file that cannot be opened or
        read is fatal. */
    method CompareUpdatedContentsWithActualFile(text: string, path: string, readOk: bool)
      returns (same: bool, fatal: Option<Failure>)
      ensures fatal == if path in files && readOk then None else Some(ReadFailed)
      ensures fatal == None ==> (same <==> files[path] == text)
    {
      if path !in files || !readOk {
        return false, Some(ReadFailed);
      }
      same := files[path] == text;
      fatal := None;
    }

    /** `backupFile`: `cp path path.bak`, fatal when it fails. */
    method BackupFile(path: string, ok: bool) returns (fatal: Option<Failure>)
      modifies this
      ensures fatal == if ok && path in old(files) then None else Some(BackupFailed)
      ensures files == if fatal == None then old(files)[BackupPath(path) := old(files)[path]] else old(files)
      ensures restarts == old(restarts)
    {
      if !ok || path !in files {
        return Some(BackupFailed);
      }
      files := files[BackupPath(path) := files[path]];
      fatal := None;
    }

    /** `writeContentsToFile`: open the existing file, truncate it, write the text. An
        error is returned, not fatal; a short write leaves the characters written so far. */
    method WriteContentsToFile(path: string, contents: string, step: WriteStep)
      returns (err: bool)
      modifies this
      ensures err <==> step != WriteOk || path !in old(files)
      ensures files == if path in old(files) then old(files)[path := Written(old(files)[path], contents, step)] else old(files)
      ensures restarts == old(restarts)
    {
      if path !in files || step == OpenFails {
        return true;
      }
      if step == TruncateFails {
        return true;
      }
      files := files[path := ""];
      if step.WriteFails? {
        var n := if step.written < |contents| then step.written else |contents|;
        files := files[path := contents[..n]];
        assert contents[..|contents|] == contents;
        return true;
      }
      files := files[path := contents];
      err := false;
    }

    /** `rollbackFile`: `cp path.bak path`, fatal when it fails. */
    method RollbackFile(path: string, ok: bool) returns (fatal: Option<Failure>)
      modifies this
      ensures fatal == if ok && BackupPath(path) in old(files) then None else Some(RollbackFailed)
      ensures files == if fatal == None then old(files)[path := old(files)[BackupPath(path)]] else old(files)
      ensures restarts == old(restarts)
    {
      if !ok || BackupPath(path) !in files {
        return Some(RollbackFailed);
      }
      files := files[path := files[BackupPath(path)]];
      fatal := None;
    }

    /** `restartUnbound`: `systemctl restart unbound`, fatal when it fails. */
    method RestartUnbound(ok: bool) returns (fatal: Option<Failure>)
      modifies this
      ensures fatal == if ok then None else Some(RestartFailed)
      ensures restarts == if ok then old(restarts) + 1 else old(restarts)
      ensures files == old(files)
    {
      if !ok {
        return Some(RestartFailed);
      }
      restarts := restarts + 1;
      fatal := None;
    }

    /** main.go's final block: create, compare, and only on a difference back up,
        write, check, and restart or roll back. `env.checkOk` is the verdict of
        `checkIfFileIsValid`. */
    method UpdateFile(path: string, text: string, env: Env) returns (outcome: Outcome)
      modifies this
      ensures (outcome, Snapshot()) == Cycle(old(Snapshot()), path, text, env)
    {
      var fatal := CreateFileIfNotExists(path, env.create);
      if fatal.Some? {
        return Abort(fatal.value);
      }
      assert files == old(files)[path := Before(old(Snapshot()), path)];
      var same;
      same, fatal := CompareUpdatedContentsWithActualFile(text, path, env.readOk);
      if fatal.Some? {
        return Abort(fatal.value);
      }
      if same {
        return NoOp;
      }
      fatal := BackupFile(path, env.backupOk);
      if fatal.Some? {
        return Abort(fatal.value);
      }
      var err := WriteContentsToFile(path, text, env.write);
      if err {
        fatal := RollbackFile(path, env.rollbackOk);
        if fatal.Some? {
          return Abort(fatal.value);
        }
        return Abort(WriteFailed);
      }
      if env.checkOk {
        fatal := RestartUnbound(env.restartOk);
        if fatal.Some? {
          return Abort(fatal.value);
        }
        return Applied;
      } else {
        fatal := RollbackFile(path, env.rollbackOk);
        if fatal.Some? {
          return Abort(fatal.value);
        }
        return RolledBack;
      }
    }
  }

  /** Equal contents: nothing is backed up, written, checked or restarted; the only
      possible change is the creation of the missing (empty) file. */
  lemma NoOpChangesNothing(s: State, path: string, text: string, env: Env)
    ensures Cycle(s, path, text, env).0 == NoOp <==>
      (path in s.files || env.create == CreateOk) && env.readOk && Before(s, path) == text
    ensures Cycle(s, path, text, env).0 == NoOp ==>
      Cycle(s, path, text, env).1 == s.(files := s.files[path := text])
    ensures Cycle(s, path, text, env).0 == NoOp && path in s.files ==> Cycle(s, path, text, env).1 == s
  {
  }

  /** A file that is created by the cycle is empty, so non-empty text is never a no-op. */
  lemma FreshFileNeverNoOp(s: State, path: string, text: string, env: Env)
    requires path !in s.files && text != ""
    ensures Cycle(s, path, text, env).0 != NoOp
  {
  }

  /** Whenever the file was overwritten, the backup holds its pre-cycle content. */
  lemma BackupHoldsPreviousContent(s: State, path: string, text: string, env: Env)
    requires Cycle(s, path, text, env).0 in {Applied, RolledBack, Abort(WriteFailed), Abort(RestartFailed), Abort(RollbackFailed)}
    ensures BackupPath(path) in Cycle(s, path, text, env).1.files
    ensures Cycle(s, path, text, env).1.files[BackupPath(path)] == Before(s, path)
  {
  }

  /** Applied exactly when every step succeeds and the text differs; the file then
      holds the text and Unbound was restarted once. */
  lemma AppliedSpec(s: State, path: string, text: string, env: Env)
    ensures Cycle(s, path, text, env).0 == Applied <==>
      && (path in s.files || env.create == CreateOk)
      && env.readOk && Before(s, path) != text && env.backupOk
      && env.write == WriteOk && env.checkOk && env.restartOk
    ensures Cycle(s, path, text, env).0 == Applied ==>
      var t := Cycle(s, path, text, env).1;
      path in t.files && t.files[path] == text && t.restarts == s.restarts + 1
  {
  }

  /** Unbound is restarted at most once per cycle, and only when the cycle is Applied. */
  lemma RestartsOnlyWhenApplied(s: State, path: string, text: string, env: Env)
    ensures Cycle(s, path, text, env).1.restarts
         == if Cycle(s, path, text, env).0 == Applied then s.restarts + 1 else s.restarts
  {
  }

  /** A failing check restores the pre-cycle content exactly, with no restart. */
  lemma RollbackRestoresExactly(s: State, path: string, text: string, env: Env)
    ensures Cycle(s, path, text, env).0 == RolledBack <==>
      && (path in s.files || env.create == CreateOk)
      && env.readOk && Before(s, path) != text && env.backupOk
      && env.write == WriteOk && !env.checkOk && env.rollbackOk
    ensures Cycle(s, path, text, env).0 == RolledBack ==>
      var t := Cycle(s, path, text, env).1;
      && path in t.files && t.files[path] == Before(s, path)
      && t.restarts == s.restarts
  {
  }

  /** A write error with a working rollback restores the pre-cycle content and aborts. */
  lemma WriteFailureRestores(s: State, path: string, text: string, env: Env)
    requires path in s.files || env.create == CreateOk
    requires env.readOk && Before(s, path) != text && env.backupOk
    requires env.write != WriteOk && env.rollbackOk
    ensures Cycle(s, path, text, env).0 == Abort(WriteFailed)
    ensures Cycle(s, path, text, env).1.files[path] == Before(s, path)
    ensures Cycle(s, path, text, env).1.restarts == s.restarts
  {
  }

  /** The cycle touches only the file and its backup. */
  lemma OnlyFileAndBackupChange(s: State, path: string, text: string, env: Env, other: string)
    requires other != path && other != BackupPath(path)
    ensures other in Cycle(s, path, text, env).1.files <==> other in s.files
    ensures other in s.files ==> Cycle(s, path, text, env).1.files[other] == s.files[other]
  {
  }

  /** Idempotence: after an applied cycle, the same text is a no-op that changes nothing,
      whatever the oracles say about the steps it no longer reaches. */
  lemma {:induction false} SecondCycleIsNoOp(s: State, path: string, text: string, env: Env, env2: Env)
    requires Cycle(s, path, text, env).0 == Applied
    requires env2.readOk
    ensures Cycle(Cycle(s, path, text, env).1, path, text, env2) == (NoOp, Cycle(s, path, text, env).1)
  {
    var t := Cycle(s, path, text, env).1;
    AppliedSpec(s, path, text, env);
    assert path in t.files && t.files[path] == text;
    assert t.files[path := text] == t.files;
  }

  /** A rolled-back cycle leaves a store on which repeating the cycle does the same again. */
  lemma {:induction false} RolledBackRepeats(s: State, path: string, text: string, env: Env)
    requires Cycle(s, path, text, env).0 == RolledBack
    ensures Cycle(Cycle(s, path, text, env).1, path, text, env) == (RolledBack, Cycle(s, path, text, env).1)
  {
    var t := Cycle(s, path, text, env).1;
    RollbackRestoresExactly(s, path, text, env);
    assert Before(t, path) == Before(s, path);
    assert BackupPath(path) in t.files && t.files[BackupPath(path)] == Before(s, path);
    assert t.files[path := Before(t, path)] == t.files;
    assert t.files[BackupPath(path) := Before(t, path)] == t.files;
    var w := t.files[path := Written(Before(t, path), text, env.write)];
    assert w[path := w[BackupPath(path)]] == t.files;
  }

  /** A failed restart leaves the new text in the file, so the next run with the same
      text is a no-op: Unbound is not restarted until the rendered text changes. */
  lemma {:induction false} RestartFailedThenNoOp(s: State, path: string, text: string, env: Env, env2: Env)
    requires Cycle(s, path, text, env).0 == Abort(RestartFailed)
    requires env2.readOk
    ensures var t := Cycle(s, path, text, env).1;
      path in t.files && t.files[path] == text && t.restarts == s.restarts
    ensures Cycle(Cycle(s, path, text, env).1, path, text, env2) == (NoOp, Cycle(s, path, text, env).1)
  {
    var t := Cycle(s, path, text, env).1;
    assert path in t.files && t.files[path] == text;
    assert t.files[path := text] == t.files;
  }
}
