/**
 * Worked cases of the script's behaviour, proved from the general model:
 * the two-item example run, a URL in which `/blob/` survives the rewrite,
 * and a re-run of the same input. The example strings are built from
 * their parts so that the proofs can follow the parts.
 */
module Scenarios {
  import opened Wrappers
  import opened PyStr
  import opened PosixPath
  import opened Ingest
  import opened Batch
  import opened Uploader

  const NotesFile: string := "notes.txt"
  const ReadmeFile: string := "readme.md"
  const RepoPath: string := "/org/repo"
  /** `./notes.txt` */
  const NotesPath: string := "./" + NotesFile
  /** `https://github.com/org/repo/blob/main/readme.md` */
  const ReadmePage: string := "https://" + Github + (RepoPath + BlobSegment + ("main/" + ReadmeFile))
  /** `https://raw.githubusercontent.com/org/repo/main/readme.md` */
  const ReadmeRaw: string := "https://" + RawGithub + (RepoPath + "/" + ("main/" + ReadmeFile))
  /** `./notes.txt,https://github.com/org/repo/blob/main/readme.md` */
  const ExampleInput: string := NotesPath + "," + ReadmePage

  /** The example's path part keeps its `main/readme.md` and loses its `/blob/`. */
  lemma ReadmePathRewritten(a: string, c: string)
    requires a == RepoPath && c == "main/" + ReadmeFile
    ensures ReplaceAll(ReplaceAll(a + BlobSegment + c, Github, RawGithub), BlobSegment, "/") == a + "/" + c
  {
    var path := a + BlobSegment + c;
    assert Github[3] == 'h';
    LacksPattern(path, Github, 3);
    ReplaceAllAbsent(path, Github, RawGithub);
    assert BlobSegment[1] == 'b';
    assert path == a + (BlobSegment + c);
    ReplaceAllSkipsStretch(a, BlobSegment + c, BlobSegment, "/");
    assert (BlobSegment + c)[6..] == c;
    LacksPattern(c, BlobSegment, 1);
    ReplaceAllAbsent(c, BlobSegment, "/");
  }

  /** The example's GitHub page, given as its parts, becomes its raw content URL. */
  lemma PageConverted(page: string, raw: string, a: string, c: string)
    requires a == RepoPath && c == "main/" + ReadmeFile
    requires page == "https://" + Github + (a + BlobSegment + c)
    requires raw == "https://" + RawGithub + (a + "/" + c)
    ensures IsRemote(page)
    ensures ConvertGithubUrl(page) == Some(raw)
  {
    ConvertGithubHost("https://", a + BlobSegment + c);
    ReadmePathRewritten(a, c);
  }

  /** `https://github.com/org/repo/blob/main/readme.md` is fetched from `https://raw.githubusercontent.com/org/repo/main/readme.md`. */
  lemma ReadmeUrlConverted()
    ensures IsRemote(ReadmePage)
    ensures ConvertGithubUrl(ReadmePage) == Some(ReadmeRaw)
  {
    PageConverted(ReadmePage, ReadmeRaw, RepoPath, "main/" + ReadmeFile);
  }

  /** The path part `/blob/blob/x` loses only its first `/blob/`. */
  lemma DoubledBlobRewritten(rest: string, tail: string)
    requires tail == "blob/x" && rest == BlobSegment + tail
    ensures ReplaceAll(ReplaceAll(rest, Github, RawGithub), BlobSegment, "/") == "/" + tail
  {
    assert Github[3] == 'h';
    LacksPattern(rest, Github, 3);
    ReplaceAllAbsent(rest, Github, RawGithub);
    assert rest[6..] == tail;
    assert tail[0] != BlobSegment[0];
    ContainsSameLength(tail, BlobSegment);
    ReplaceAllAbsent(tail, BlobSegment, "/");
  }

  /** `/blob/` followed by `x` is a `/blob/` occurrence wherever it is placed. */
  lemma BlobMarkerAt(head: string, tail: string, out: string)
    requires tail == "blob/x" && out == head + ("/" + tail)
    ensures Contains(out, BlobSegment)
  {
    assert ("/" + tail)[..6] == BlobSegment;
    assert out[|head|..|head| + 6] == BlobSegment;
    IndexGivesContains(out, BlobSegment, |head|);
  }

  /**
   * `/blob/` can remain after the rewrite: the replacement resumes after
   * each occurrence it removed, so `https://github.com/blob/blob/x`
   * becomes `https://raw.githubusercontent.com/blob/x`.
   */
  lemma BlobMarkerCanSurvive(url: string, out: string, tail: string)
    requires tail == "blob/x"
    requires url == "https://" + Github + (BlobSegment + tail)
    requires out == "https://" + RawGithub + ("/" + tail)
    ensures IsRemote(url)
    ensures ConvertGithubUrl(url) == Some(out)
    ensures Contains(out, BlobSegment)
  {
    ConvertGithubHost("https://", BlobSegment + tail);
    DoubledBlobRewritten(BlobSegment + tail, tail);
    BlobMarkerAt("https://" + RawGithub, tail, out);
  }

  /** The example's two sources are stored as `notes.txt` and `readme.md`. */
  lemma ExampleBlobNames()
    ensures BlobName(None, NotesPath) == NotesFile
    ensures BlobName(None, ReadmePage) == ReadmeFile
  {
    DefaultNameAfterDir("./", NotesFile);
    var dir := "https://" + Github + (RepoPath + BlobSegment + "main/");
    assert ReadmePage == dir + ReadmeFile;
    DefaultNameAfterDir(dir, ReadmeFile);
  }

  /** The example's command-line argument splits into its two sources. */
  lemma ExampleSplit()
    ensures Split(ExampleInput, ",") == [NotesPath, ReadmePage]
  {
    var items := [NotesPath, ReadmePage];
    assert ',' !in NotesPath && ',' !in ReadmePage;
    JoinThenSplit(items, ',');
    assert items[1..] == [ReadmePage];
    assert Join(items, ",") == ExampleInput;
  }

  /** A readable `./notes.txt` is uploaded as read, under `notes.txt`. */
  lemma NotesOutcome(w: World, notes: Bytes)
    requires NotesPath in w.files && w.files[NotesPath] == notes
    requires w.refused == {}
    ensures UploadOutcome(w, NotesPath, None) == Uploaded(NotesPath, NotesFile, notes, false)
  {
    ExampleBlobNames();
    assert NotesPath[0] == '.';
  }

  /** A `text/plain` response with a body is real content. */
  lemma PlainTextIsReal(resp: Response)
    requires resp.contentType == Some("text/plain") && resp.body != []
    ensures IsRealContent(resp)
  {
    assert HtmlType[5] == 'h';
    LacksPattern("text/plain", HtmlType, 5);
  }

  /** A plain-text, non-empty raw README is downloaded and uploaded under `readme.md`. */
  lemma ReadmeOutcome(w: World, readme: Bytes)
    requires ReadmeRaw in w.web && w.web[ReadmeRaw] == Response(Some("text/plain"), readme)
    requires readme != []
    requires w.refused == {}
    ensures UploadOutcome(w, ReadmePage, None) == Uploaded(ReadmeRaw, ReadmeFile, readme, true)
  {
    ExampleBlobNames();
    ReadmeUrlConverted();
    PlainTextIsReal(w.web[ReadmeRaw]);
  }

  /** Two items give their two outcomes, in order. */
  lemma TwoOutcomes(w: World, a: string, b: string)
    ensures Outcomes(w, [a, b]) == [UploadOutcome(w, a, None), UploadOutcome(w, b, None)]
  {
    OutcomesAt(w, [a, b], 0);
    OutcomesAt(w, [a, b], 1);
  }

  /** Two uploads leave exactly their two blobs in an empty container. */
  lemma TwoUploads(oa: Outcome, ob: Outcome)
    requires oa.Uploaded? && ob.Uploaded?
    ensures Run(map[], [oa, ob]) == map[oa.blob := oa.content, ob.blob := ob.content]
  {
    assert [oa, ob][1..] == [ob] && [ob][1..] == [];
    var first := Apply(map[], oa);
    assert Run(map[], [oa, ob]) == Run(first, [ob]);
    assert Run(first, [ob]) == Run(Apply(first, ob), []);
  }

  /**
   * `--input-paths ./notes.txt,https://github.com/org/repo/blob/main/readme.md`
   * with a readable `./notes.txt` and a non-HTML, non-empty raw README
   * stores exactly the blobs `notes.txt` and `readme.md`, the second
   * downloaded from the raw content URL.
   */
  lemma ExampleRun(w: World, notes: Bytes, readme: Bytes)
    requires NotesPath in w.files && w.files[NotesPath] == notes
    requires ReadmeRaw in w.web && w.web[ReadmeRaw] == Response(Some("text/plain"), readme)
    requires readme != []
    requires w.refused == {}
    ensures Outcomes(w, Split(ExampleInput, ","))
         == [Uploaded(NotesPath, NotesFile, notes, false), Uploaded(ReadmeRaw, ReadmeFile, readme, true)]
    ensures Run(map[], Outcomes(w, Split(ExampleInput, ","))) == map[NotesFile := notes, ReadmeFile := readme]
  {
    ExampleSplit();
    NotesOutcome(w, notes);
    ReadmeOutcome(w, readme);
    TwoOutcomes(w, NotesPath, ReadmePage);
    TwoUploads(Uploaded(NotesPath, NotesFile, notes, false), Uploaded(ReadmeRaw, ReadmeFile, readme, true));
  }

  /** Running the same input twice against one container ends with the blobs of the first run. */
  method RunTwice(w: World, initial: map<string, Bytes>, inputPaths: string)
    returns (afterFirst: map<string, Bytes>, afterSecond: map<string, Bytes>)
    ensures afterFirst == Run(initial, Outcomes(w, Split(inputPaths, ",")))
    ensures afterSecond == afterFirst
  {
    var container := new BlobContainer(initial);
    container.IngestInputPaths(w, inputPaths);
    afterFirst := container.blobs;
    container.IngestInputPaths(w, inputPaths);
    afterSecond := container.blobs;
    RerunIsIdempotent(initial, Outcomes(w, Split(inputPaths, ",")));
  }
}
