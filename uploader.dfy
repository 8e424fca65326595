/**
 * The state the script changes: the blobs of the target container, which
 * `upload_blob` overwrites one at a time, and the lines it prints, one per
 * item. `handle_input` drives the uploads in a loop over the input items.
 */
module Uploader {
  import opened Wrappers
  import opened PyStr
  import opened Ingest
  import opened Batch

  class BlobContainer {
    /** The container's blobs, by name. */
    var blobs: map<string, Bytes>
    /** What the log lines printed so far report, oldest first. */
    var log: seq<Outcome>

    /** A container holding `initial`, before anything is printed. */
    constructor (initial: map<string, Bytes>)
      ensures blobs == initial && log == []
    {
      blobs := initial;
      log := [];
    }

    /**
     * `upload_blob(client, container, filePath, blobName)`: picks the blob
     * name (the blob client refuses an empty one), rewrites and downloads a
     * remote source or reads a local one, overwrites the blob, and prints
     * one line. Every failure is caught here and only printed.
     */
    method UploadBlob(w: World, filePath: string, blobName: Option<string>)
      modifies this
      ensures blobs == Apply(old(blobs), UploadOutcome(w, filePath, blobName))
      ensures log == old(log) + [UploadOutcome(w, filePath, blobName)]
    {
      var name := BlobName(blobName, filePath);
      if name == [] {
        log := log + [Failed(filePath, name)];
      } else if IsRemote(filePath) {
        UploadRemote(w, filePath, blobName, name);
      } else if filePath !in w.files || name in w.refused {
        log := log + [Failed(filePath, name)];
      } else {
        var data := w.files[filePath];
        blobs := blobs[name := data];
        log := log + [Uploaded(filePath, name, data, false)];
      }
    }

    /**
     * The remote branch of `upload_blob`: rewrites the URL, downloads it,
     * skips an HTML page or an empty body, and otherwise overwrites the
     * blob `name` with the body.
     */
    method UploadRemote(w: World, filePath: string, blobName: Option<string>, name: string)
      requires IsRemote(filePath) && name == BlobName(blobName, filePath) && name != []
      modifies this
      ensures blobs == Apply(old(blobs), UploadOutcome(w, filePath, blobName))
      ensures log == old(log) + [UploadOutcome(w, filePath, blobName)]
    {
      ghost var expected := UploadOutcome(w, filePath, blobName);
      var converted := ConvertGithubUrl(filePath);
      if converted.None? {
        assert expected == Failed(filePath, name);
        log := log + [Failed(filePath, name)];
        return;
      }
      var url := converted.value;
      if url !in w.web {
        assert expected == RequestFailed(url);
        log := log + [RequestFailed(url)];
        return;
      }
      var response := w.web[url];
      if !IsRealContent(response) {
        assert expected == Skipped(url);
        log := log + [Skipped(url)];
      } else if name in w.refused {
        assert expected == Failed(url, name);
        log := log + [Failed(url, name)];
      } else {
        assert expected == Uploaded(url, name, response.body, true);
        blobs := blobs[name := response.body];
        assert blobs == Apply(old(blobs), expected);
        log := log + [Uploaded(url, name, response.body, true)];
      }
    }

    /**
     * `process_file`: calls `upload_blob`. Its own handler never fires,
     * because `upload_blob` already catches every exception.
     */
    method ProcessFile(w: World, filePath: string, blobName: Option<string>)
      modifies this
      ensures blobs == Apply(old(blobs), UploadOutcome(w, filePath, blobName))
      ensures log == old(log) + [UploadOutcome(w, filePath, blobName)]
    {
      UploadBlob(w, filePath, blobName);
    }

    /**
     * `handle_input`: processes every item once, in input order, without a
     * blob name; a failing item is only logged and the loop goes on.
     */
    method HandleInput(w: World, inputPaths: seq<string>)
      modifies this
      ensures blobs == Run(old(blobs), Outcomes(w, inputPaths))
      ensures log == old(log) + Outcomes(w, inputPaths)
    {
      for i := 0 to |inputPaths|
        invariant blobs == Run(old(blobs), Outcomes(w, inputPaths[..i]))
        invariant log == old(log) + Outcomes(w, inputPaths[..i])
      {
        ghost var done := Outcomes(w, inputPaths[..i]);
        OutcomesAppend(w, inputPaths, i);
        RunAppend(old(blobs), done, UploadOutcome(w, inputPaths[i], None));
        ProcessFile(w, inputPaths[i], None);
        assert Outcomes(w, inputPaths[..i + 1]) == done + [UploadOutcome(w, inputPaths[i], None)];
      }
      assert inputPaths[..|inputPaths|] == inputPaths;
    }

    /**
     * The command line's `--input-paths a,b,c` once the client exists: the
     * argument is split on `,` and the items are handed to `handle_input`.
     */
    method IngestInputPaths(w: World, inputPaths: string)
      modifies this
      ensures blobs == Run(old(blobs), Outcomes(w, Split(inputPaths, ",")))
      ensures log == old(log) + Outcomes(w, Split(inputPaths, ","))
    {
      var items := Split(inputPaths, ",");
      HandleInput(w, items);
    }
  }
}
