/** The `FileUploader` class (src/fileUploader.js:5-146) without its DOM
    wiring: configuration, the per-file pipeline, the chunk loop, the retry
    wrapper, and pause/resume.

    Everything the uploader does that the outside world can observe is
    appended to `events`: each request it posts and each call of
    `onProgress`, `onSuccess` or `onError`. The encryption of a chunk and the
    answers of the network come from `env`; `exchanges` counts the answers
    used so far, so the next iteration of the chunk loop is answered by
    `env.net(exchanges)`. */
module Uploader {
  import opened Chunks
  import opened Transfer
  import opened Attempts

  const DefaultChunkSize: nat := 1048576  // 1 * 1024 * 1024
  const DefaultMaxRetries: nat := 3
  const InvalidTypeMessage := "Invalid file type"
  const CompressionErrorPrefix := "Compression error: "

  /** A file: its bytes (`file.size` is their number) and its MIME type (`file.type`). */
  datatype File = File(data: seq<byte>, mime: string)

  /** The options the uploader recognises; a number 0 stands for an option
      that is absent or falsy. */
  datatype Options = Options(allowedTypes: seq<string>, chunkSize: nat, maxRetries: nat)

  /** What `compressFile` hands back: the compressed file, or the error the
      compression library threw. */
  datatype Compression = Compressed(file: File) | CompressionFailed(error: string)

  class FileUploader {
    const allowedTypes: seq<string>
    const chunkSize: nat
    const maxRetries: nat
    var pause: bool
    var events: seq<Event>
    var exchanges: nat
    const env: Env

    predicate Valid()
    {
      chunkSize > 0 && maxRetries > 0
    }

    /** Options that are absent or falsy, 0 included, take their defaults:
        1 MiB chunks and 3 retries. */
    constructor (options: Options, env: Env)
      ensures Valid()
      ensures allowedTypes == options.allowedTypes
      ensures chunkSize == if options.chunkSize == 0 then DefaultChunkSize else options.chunkSize
      ensures maxRetries == if options.maxRetries == 0 then DefaultMaxRetries else options.maxRetries
      ensures !pause && events == [] && exchanges == 0 && this.env == env
    {
      allowedTypes := options.allowedTypes;
      chunkSize := if options.chunkSize != 0 then options.chunkSize else DefaultChunkSize;
      maxRetries := if options.maxRetries != 0 then options.maxRetries else DefaultMaxRetries;
      pause := false;
      events := [];
      exchanges := 0;
      this.env := env;
    }

    /** A file is accepted exactly when the allow-list is empty or names its type. */
    function ValidateFileType(file: File): (ok: bool)
      ensures ok <==> |allowedTypes| == 0 || exists i :: 0 <= i < |allowedTypes| && allowedTypes[i] == file.mime
    {
      |allowedTypes| == 0 || file.mime in allowedTypes
    }

    /** The work `handleFiles` does for one dropped file: a file of a type
        that is not allowed is reported and never uploaded; otherwise it is
        compressed (a failed compression is reported and the original file is
        used) and uploaded with the configured number of retries. */
    method HandleFile(file: File, compression: Compression)
      requires Valid()
      modifies this`events, this`pause, this`exchanges
      ensures !ValidateFileType(file) ==>
        events == old(events) + [Error(Message(InvalidTypeMessage))]
        && pause == old(pause) && exchanges == old(exchanges)
      ensures ValidateFileType(file) ==>
        var notice := if compression.CompressionFailed?
                      then [Error(Message(CompressionErrorPrefix + compression.error))] else [];
        var uploaded := if compression.Compressed? then compression.file else file;
        var s := Retry(uploaded.data, chunkSize, env, old(pause), old(exchanges), maxRetries);
        events == old(events) + notice + SessionEvents(s)
        && pause == Last(s.passes).pause && exchanges == Last(s.passes).used
    {
      if ValidateFileType(file) {
        var compressedFile := file;
        match compression {
          case Compressed(smaller) =>
            compressedFile := smaller;
          case CompressionFailed(error) =>
            events := events + [Error(Message(CompressionErrorPrefix + error))];
        }
        UploadFileWithRetry(compressedFile, maxRetries);
      } else {
        events := events + [Error(Message(InvalidTypeMessage))];
      }
    }

    /** Whole passes over the file, from chunk 0 each time, until a pass does
        not throw; after `retries` retries, a last failure is reported as
        giving up. */
    method UploadFileWithRetry(file: File, retries: nat)
      requires Valid()
      modifies this`events, this`pause, this`exchanges
      ensures var s := Retry(file.data, chunkSize, env, old(pause), old(exchanges), retries);
        events == old(events) + SessionEvents(s)
        && pause == Last(s.passes).pause && exchanges == Last(s.passes).used
      decreases retries
    {
      ghost var s := Retry(file.data, chunkSize, env, pause, exchanges, retries);
      ghost var r := Pass(file.data, chunkSize, env, pause, exchanges);
      var exit := UploadFileInChunks(file);
      assert exit == r.exit && pause == r.pause && exchanges == r.used;
      if exit.Threw() {
        if retries > 0 {
          ghost var rest := Retry(file.data, chunkSize, env, pause, exchanges, retries - 1);
          assert s == Session([r] + rest.passes, rest.gaveUp);
          UploadFileWithRetry(file, retries - 1);
          SessionCons(r, rest);
          AppendAssoc(old(events), r.events, SessionEvents(rest));
        } else {
          assert s == Session([r], true);
          SessionOfOne(r, true);
          AppendAssoc(old(events), r.events, [Error(Message(GiveUpMessage))]);
          events := events + [Error(Message(GiveUpMessage))];
        }
      } else {
        assert s == Session([r], false);
        SessionOfOne(r, false);
        assert r.events + [] == r.events;
      }
    }

    /** One pass over the file: chunks from 0 on, in order, each encrypted
        and posted with its 1-based number and the chunk count, until all are
        sent or `pause` is found set at a chunk boundary; a failed POST is
        reported and thrown, a failed read is thrown; success is reported only
        when every chunk was sent. */
    method UploadFileInChunks(file: File) returns (exit: Exit)
      requires Valid()
      modifies this`events, this`pause, this`exchanges
      ensures var r := Pass(file.data, chunkSize, env, old(pause), old(exchanges));
        exit == r.exit && events == old(events) + r.events
        && pause == r.pause && exchanges == r.used
    {
      var totalChunks := TotalChunks(|file.data|, chunkSize);
      var currentChunk := 0;
      ghost var whole := Pass(file.data, chunkSize, env, pause, exchanges);
      ghost var emitted: seq<Event> := [];

      while currentChunk < totalChunks && !pause
        invariant currentChunk <= totalChunks
        invariant events == old(events) + emitted
        invariant var rest := Loop(file.data, chunkSize, totalChunks, env, currentChunk, pause, exchanges);
          Continues(whole, emitted, rest)
        decreases totalChunks - currentChunk
      {
        ghost var used := exchanges;
        ghost var rest := Loop(file.data, chunkSize, totalChunks, env, currentChunk, false, used);
        ghost var before := emitted;
        var outcome := SendChunk(file, currentChunk, totalChunks);
        ghost var sent := Iteration(file.data, chunkSize, totalChunks, env, currentChunk, outcome);
        emitted := emitted + sent;
        assert events == old(events) + emitted by {
          AppendAssoc(old(events), before, sent);
        }
        if !outcome.Advances() {
          exit := if outcome.ReadError? then EncryptThrew else PostThrew;
          assert rest == Run(sent, exit, currentChunk, pause, exchanges) by {
            LoopThrows(file.data, chunkSize, totalChunks, env, currentChunk, used);
          }
          return;
        }
        ghost var next := Loop(file.data, chunkSize, totalChunks, env, currentChunk + 1, pause, exchanges);
        assert Continues(whole, emitted, next) by {
          LoopAdvances(file.data, chunkSize, totalChunks, env, currentChunk, used);
          assert rest == next.(events := sent + next.events);
          AppendAssoc(before, sent, next.events);
        }
        currentChunk := currentChunk + 1;
      }

      if currentChunk == totalChunks {
        events := events + [Success(SuccessMessage)];
        exit := Completed;
      } else {
        exit := Stopped;
      }
    }

    /** The body of the chunk loop for chunk `currentChunk`: slice and
        encrypt the chunk, post it with its 1-based number and the chunk
        count, and report progress while it is in flight; a rejected POST is
        reported to `onError`. A `pauseUpload` call made while the iteration
        waits sets `pause`. Whether the iteration throws is read off the
        returned answer: it throws when the read or the POST failed. */
    method SendChunk(file: File, currentChunk: nat, totalChunks: nat) returns (outcome: Outcome)
      requires currentChunk < totalChunks
      modifies this`events, this`pause, this`exchanges
      ensures outcome == env.net(old(exchanges)) && exchanges == old(exchanges) + 1
      ensures pause == (old(pause) || outcome.pauseRequested)
      ensures events == old(events) + Iteration(file.data, chunkSize, totalChunks, env, currentChunk, outcome)
    {
      var chunk := Slice(file.data, currentChunk, chunkSize);
      outcome := env.net(exchanges);
      exchanges := exchanges + 1;
      if outcome.pauseRequested {
        PauseUpload();
      }
      match outcome
      case ReadError(_) =>
      case Reply(_, ticks, ok) =>
        var encryptedChunk := env.cipher(chunk);
        var request := Post(currentChunk + 1, totalChunks, encryptedChunk);
        var sent := [request] + Reports(currentChunk, totalChunks, ticks);
        if !ok {
          sent := sent + [Error(RequestError)];
        }
        events := events + sent;
    }

    /** Sets the flag the chunk loop consults before each chunk. */
    method PauseUpload()
      modifies this`pause
      ensures pause
    {
      pause := true;
    }

    /** Clears the flag and starts a fresh `uploadFileWithRetry` with the
        configured retries: the upload starts again from chunk 0, not from
        where the pause stopped it. */
    method ResumeUpload(file: File)
      requires Valid()
      modifies this`events, this`pause, this`exchanges
      ensures var s := Retry(file.data, chunkSize, env, false, old(exchanges), maxRetries);
        events == old(events) + SessionEvents(s)
        && pause == Last(s.passes).pause && exchanges == Last(s.passes).used
    {
      pause := false;
      UploadFileWithRetry(file, maxRetries);
    }
  }
}
