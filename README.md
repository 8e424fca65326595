# ckp.py ingestion core in Dafny

`ckp.py` uploads a comma-separated list of local files and remote URLs into
an Azure Storage container. This project models the decisions that the script
makes for each item, and the loop that carries the container across items.

- **Remote or local.** An item is remote when it starts with `http://` or
  `https://`.
- **URL rewriting.** `convert_github_url` turns a GitHub page URL into a raw
  content URL. It uses Python's `urlparse(...).netloc` and `str.replace`,
  both modelled for `http(s)` URLs, except as listed under "Left out".
- **Blob name.** A blob name that is absent or empty defaults to
  `os.path.basename`. If that is empty too, the item fails before anything
  is fetched or read, because the blob client refuses an empty name.
- **Skip rule.** An HTML or empty download is skipped.
- **Overwrite.** An upload overwrites the blob with `overwrite=True`.
- **Batch loop.** `handle_input` loops over the result of `split(',')`.
  It swallows every per-item failure.

The files:

- `wrappers.dfy`: `Option` and the `byte` type.
- `py_str.dfy` (module `PyStr`): Python's `in`, `str.replace`, `str.split`
  and `str.join` on strings, with their relations proved.
- `posix_path.dfy` (module `PosixPath`): `os.path.basename` for POSIX.
- `ingest.dfy` (module `Ingest`):
  - the remote test and the `urlparse` network location;
  - `convert_github_url` and the blob name;
  - the skip rule, and the outcome of `upload_blob` for one item;
  - the effect of that outcome on the container.
- `batch.dfy` (module `Batch`): the outcomes of a whole input, and the
  container after them.
- `uploader.dfy` (module `Uploader`): the class `BlobContainer`.
  - Its state is the container's blobs (`map<string, Bytes>`) and the log of
    outcomes.
  - Its methods are `upload_blob`, `process_file` and `handle_input` (a
    `for` loop), plus the `split(',')` entry point.
  - Each method is proved to leave the state that the functions of `Ingest`
    and `Batch` describe.
- `scenarios.dfy` (module `Scenarios`): worked cases.
  - The two-item example `./notes.txt,https://github.com/org/repo/blob/main/readme.md`.
  - A URL in which `/blob/` survives the rewrite.
  - Running the same input twice on one container.

The outside world is a value, `World`:

- the HTTP responses by URL, where a missing URL means `RequestException`;
- the readable local files by path;
- the blob names whose upload the service rejects.

## Model

| member | source | states |
|---|---|---|
| PyStr.Contains | ckp.py:32 | Python's `sub in s`: it holds only when `sub` is no longer than `s`; what it means in full is `PyStr.ContainsIffOccurs`. |
| PyStr.ContainsIffOccurs | ckp.py:32 | Python's `sub in s` holds exactly when `sub` occurs at some index of `s`. |
| PyStr.ReplaceAll | ckp.py:33 | `s.replace(pat, repl)`: the result is no longer than `s` when `repl` is no longer than `pat`, and no shorter when `repl` is no shorter. |
| PyStr.ReplaceAllIsJoinOfSplit | ckp.py:33 | `s.replace(pat, repl) == repl.join(s.split(pat))`: the replacement is left to right and non-overlapping. |
| PyStr.ReplaceAllSelf | ckp.py:33 | Replacing a pattern by itself gives the text back. |
| PyStr.ReplaceAllAbsent | ckp.py:33 | A text that does not contain the pattern is returned unchanged by `replace`. |
| PyStr.ReplaceAllConcat | ckp.py:33 | `replace` distributes over a concatenation when the second part does not start with a pattern character. |
| PyStr.Split | ckp.py:95 | `str.split(sep)` always yields at least one item (`"".split(",") == [""]`). |
| PyStr.SplitCount | ckp.py:95 | Splitting on `,` yields one more item than the number of commas. |
| PyStr.SplitPartsLackSep | ckp.py:95 | No item that `split(',')` yields contains a comma. |
| PyStr.SplitThenJoin | ckp.py:95 | Joining the items of `split(sep)` with `sep` gives back the original string. |
| PyStr.JoinThenSplit | ckp.py:95 | Splitting a comma-join of a non-empty list of comma-free items gives back the list. |
| PosixPath.Basename | ckp.py:40 | `os.path.basename` is the longest suffix without `/`: it is preceded by a `/` unless it is the whole path. |
| PosixPath.BasenameUnique | ckp.py:40 | The three properties of the basename determine it uniquely. |
| PosixPath.BasenameEmptyIff | ckp.py:40 | The basename is empty exactly when the path is empty or ends in `/`. |
| Ingest.IsRemote | ckp.py:43 | An item is remote exactly when it starts with `http://` or `https://`. |
| Ingest.AfterScheme | ckp.py:31 | For an `http(s)` URL, the text after `scheme://` is a proper suffix preceded by exactly `http://` or `https://`. |
| Ingest.UntilNetlocEnd | ckp.py:31 | The network location is the longest prefix without `/`, `?` or `#`, and is followed by one of them. |
| Ingest.NetLoc | ckp.py:31 | `urlparse(url).netloc` for an `http(s)` URL: the text after `scheme://` up to the first `/`, `?` or `#`. |
| Ingest.UnbalancedBrackets | ckp.py:31 | `urlparse` raises `ValueError` when the network location has a `[` without a `]`, or the other way round. |
| Ingest.ConvertGithubUrl | ckp.py:29-34 | `convert_github_url`: `None` for the `ValueError` of `urlparse`; both replacements on the whole URL when the host contains `github.com`; the URL itself otherwise. Its properties are the lemmas below. |
| Ingest.ConvertKeepsOtherHosts | ckp.py:32-34 | When the host does not contain `github.com` (and `urlparse` accepts it), the URL comes back unchanged. |
| Ingest.ConvertKeepsUrlsWithoutGithub | ckp.py:29-34 | A URL without `github.com` anywhere is never rewritten; the only alternative is `urlparse`'s `ValueError`. |
| Ingest.ConvertOnGithubHost | ckp.py:32-33 | When the host contains `github.com` anywhere (`www.github.com`, `github.com:443`, `user@github.com`) and `urlparse` accepts it, the result is both replacements applied to the whole URL. |
| Ingest.GithubHostNetLoc | ckp.py:31 | The host of `scheme + host + rest` is `host` when `rest` starts with `/`, `?` or `#` (or is empty). |
| Ingest.FirstReplacement | ckp.py:33 | The first `replace` turns the host into `raw.githubusercontent.com` and leaves the scheme alone. |
| Ingest.SecondReplacement | ckp.py:33 | The second `replace` leaves the scheme and the new host alone. |
| Ingest.ConvertGithubHost | ckp.py:29-34 | A `github.com` URL becomes a `raw.githubusercontent.com` URL whose path, query and fragment also went through both replacements; its host is exactly `raw.githubusercontent.com`. |
| Ingest.ConvertIdempotentOnGithubHost | ckp.py:29-34 | Converting an already converted `github.com` URL changes nothing more. |
| Ingest.RawHostLacksGithub | ckp.py:32 | The rewritten host does not itself contain `github.com`. |
| Ingest.BlobName | ckp.py:39-40 | A non-empty given name is used verbatim; otherwise the name is the basename of the source as passed in, before any rewriting. |
| Ingest.DefaultNameAfterDir | ckp.py:39-40 | Without a given name, `dir/name` is stored under `name`. |
| Ingest.IsRealContent | ckp.py:51-52 | A response is uploaded only when its `Content-Type` (empty when absent) does not contain `text/html` and its body is not empty. |
| Ingest.UploadOutcome | ckp.py:36-69 | An empty blob name fails the item, with the source unrewritten, before anything is fetched or read. An upload uses the blob name, which is non-empty and accepted by the service. A local source is read from its own path, unrewritten, and is uploaded exactly when its name is non-empty, it is readable and its name is accepted. A remote upload stores the body fetched from the converted URL, and only when that body is real content. Conversely, a remote item with a non-empty, accepted name whose converted URL answers with real content is uploaded with that body under that name. |
| Ingest.Apply | ckp.py:56-63 | An upload sets `store[blob] := content` and keeps every other key. Any other outcome leaves the store exactly as it was. |
| Ingest.ApplyTwice | ckp.py:56-63 | Uploading the same item again leaves the container as the first upload did. |
| Ingest.NotRealContentLeavesStore | ckp.py:41-54 | A remote item whose download is HTML or empty is skipped (or fails first on an empty blob name) and leaves the store unchanged. |
| Ingest.RemoteWriteNeedsRealContent | ckp.py:43-57 | A remote item that changes the store was fetched from the converted URL and had real content. That content is what it wrote under its blob name. |
| Ingest.LocalSourceReadAsIs | ckp.py:41-63 | A local item with a non-empty blob name is never rewritten or fetched: it writes its file's bytes or changes nothing. |
| Batch.Outcomes | ckp.py:78-81 | One outcome per item, in input order, each with no blob name given. |
| Batch.OutcomesAt | ckp.py:80-81 | The outcome at each position is the outcome of the item at that position. |
| Batch.RunAppend | ckp.py:80-81 | One more item at the end is one more application of its outcome. |
| Batch.OutcomesAppend | ckp.py:80-81 | The outcomes of a longer prefix extend those of the shorter one by the next item's outcome. |
| Batch.Run | ckp.py:80-81 | The container after applying the outcomes in order; a run never removes a blob. |
| Batch.RunIsOverride | ckp.py:57-81 | A run overrides the container with the blobs that the run itself writes. |
| Batch.RerunIsIdempotent | ckp.py:57-81 | Running the same outcomes a second time changes nothing more. |
| Batch.RunKeepsUntouched | ckp.py:80-81 | A blob that no item uploads keeps its presence and its content. |
| Batch.RunLastWriteWins | ckp.py:57-81 | The last upload to a name decides that blob's content. |
| Batch.RunIgnoresNonUploads | ckp.py:66-81 | An outcome that uploads nothing can be dropped without changing the run. |
| Batch.FailedItemIsInert | ckp.py:66-81 | An item that fails or is skipped does not stop the batch: the container ends as if the item were absent. |
| Uploader.BlobContainer.UploadBlob | ckp.py:36-69 | The blobs become `Apply(old blobs, outcome)` and one log entry is appended, where the outcome is `UploadOutcome`: an empty name fails first, then the remote or the local branch. |
| Uploader.BlobContainer.UploadRemote | ckp.py:43-58 | The remote branch of `upload_blob` alone, for a non-empty name: the same new blobs and log entry as `UploadOutcome` gives. |
| Uploader.BlobContainer.ProcessFile | ckp.py:71-76 | Same effect as `upload_blob`; its own handler never fires. |
| Uploader.BlobContainer.HandleInput | ckp.py:78-81 | After the loop, the blobs are the run of every item's outcome in order, and the log lists each item's outcome once, in order. |
| Uploader.BlobContainer.IngestInputPaths | ckp.py:83-96 | The command-line string is split on `,` and handed to `handle_input`, with the same effect. |
| Scenarios.ReadmeUrlConverted | ckp.py:29-34 | `https://github.com/org/repo/blob/main/readme.md` is fetched from `https://raw.githubusercontent.com/org/repo/main/readme.md`. |
| Scenarios.BlobMarkerCanSurvive | ckp.py:33 | `https://github.com/blob/blob/x` becomes `https://raw.githubusercontent.com/blob/x`, which still contains `/blob/`. |
| Scenarios.ExampleBlobNames | ckp.py:39-40 | The example's items are stored as `notes.txt` and `readme.md`. |
| Scenarios.ExampleSplit | ckp.py:95 | The example argument splits into its two sources. |
| Scenarios.ExampleRun | ckp.py:78-96 | A readable `./notes.txt` and a plain-text, non-empty README leave exactly the blobs `notes.txt` and `readme.md` in an empty container, the second fetched from the raw URL. |
| Scenarios.RunTwice | ckp.py:57-96 | Running the same command line twice against one container ends with the blobs of the first run. |

## Left out

- `authenticate_azure` (ckp.py:16-27) is left out. It wraps foreign SDK code, and its `exit(1)` is process control.
- `requests.get`, `raise_for_status` and `open(..., "rb")` are not modelled. They are network and file I/O, so they are answers read from `World`:
  - `web` holds a response per URL whose GET succeeds;
  - `files` holds the bytes of each readable path;
  - `refused` holds the blob names whose upload raises.
- `World` is fixed for a whole run. A real re-run could see different answers, so `Scenarios.RunTwice` holds only for unchanged answers.
- `log` (ckp.py:11-14) depends on the clock and on `print`. The model records one `Outcome` per item in `BlobContainer.log`, and leaves out the timestamp and the message text.
- The argparse plumbing (ckp.py:88-94) is left out. `IngestInputPaths` takes the `--input-paths` string directly.
- Python's exception types are collapsed. A failing GET gives `RequestFailed`; every other caught exception gives `Failed`.
- `get_blob_client` (ckp.py:41) is modelled as raising only for an empty blob name, which the Azure SDK refuses when it builds the client; the azure-storage-blob package is not part of this model. Any other name the service rejects is modelled as rejecting the upload of that name.
- `requests.get` (ckp.py:48) is called without a timeout, so a server that never answers blocks the whole batch. `World` gives every GET an answer or a failure, so the property that every item is attempted holds only for fetches that return.
- `Ingest.ConvertGithubUrl` requires an `http(s)` URL, because its only caller checks for one (ckp.py:43-45). Its network-location parsing covers only such URLs.
- `urlparse`'s rejection of unbalanced `[`/`]` in the network location is modelled; it gives `None`, and the item fails.
- `Ingest.NetLoc` leaves out three parts of `urlparse`:
  - removing tab, CR and LF characters;
  - the NFKC check of the network location;
  - the validation of bracketed IPv6 hosts.
- Azure blob semantics are not modelled beyond a map from names to bytes, with overwrite.
- The description of the script says that a blob name is never empty. The code gives `os.path.basename`, which is empty for a path ending in `/` (`PosixPath.BasenameEmptyIff`); `get_blob_client` then raises `ValueError` inside the `try`, so the item is logged as failed before any rewrite or fetch. The model follows the code (`Ingest.UploadOutcome`).
- The description of the script also says that a GitHub URL ends up with no `/blob/` segment. The code does not guarantee that: `str.replace` resumes after each replacement, so `/blob/blob/x` keeps one `/blob/` (`Scenarios.BlobMarkerCanSurvive`). The code also rewrites `github.com` in the path, not only in the host. The model follows the code.
