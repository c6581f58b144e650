/** The incremental rebuild of articles (`update_article` and
    `update_all_articles` in lib/hbar.py).  The file system, the checksum,
    `ast.literal_eval`, Markdown and `datetime` are not modelled: what they
    deliver for one article directory is part of its `ArticleDir` value. */
module Rebuild {
  import opened Text
  import opened Metadata

  /** The exceptions that matter: `ValueError` is counted by
      `update_all_articles`, every other kind aborts it. */
  datatype ErrorKind = ValueError | OtherError

  /** The outcome of reading `.hbar-store`. */
  datatype StoreRead =
    | NoStore                 // the file does not exist
    | Unreadable              // SyntaxError or OSError while reading it: ignored
    | Malformed               // `literal_eval` raised ValueError
    | Stored(record: Record)
    | NotADict                // a literal other than a dictionary

  /** The outcome of reading `__article__.py`. */
  datatype InfoRead =
    | Literal(info: Record)
    | InfoMalformed           // `literal_eval` raised ValueError
    | InfoUnreadable          // SyntaxError or OSError
    | InfoNotADict(container: bool)  // a literal other than a dictionary;
                                     // `container` for a str, list, tuple or set

  /** The two Markdown conversions of `article.md`. */
  datatype Rendered = Rendered(markdown: string, summary: string)

  /** What an article directory holds, as `update_article` observes it. */
  datatype ArticleDir = ArticleDir(
    isDir: bool,
    path: string,
    checksum: int,                        // `_checksum_directory`
    store: StoreRead,
    info: InfoRead,
    content: Result<Rendered, ErrorKind>  // reading and converting `article.md`
  )

  /** What `update_article` does: nothing, write a new store record, or raise. */
  datatype Outcome = Unchanged | Written(record: Record) | Raised(kind: ErrorKind)

  /** The keys `update_article` computes itself (INFO_COMPUTED). */
  const ComputedKeys: set<string> := {"checksum", "markdown", "summary", "output path", "input path"}

  /** The stored record exists, its checksum is the directory's and no
      rebuild is forced: the article is skipped. */
  predicate UpToDate(dir: ArticleDir, force: bool)
  {
    && dir.store.Stored?
    && "checksum" in dir.store.record
    && dir.store.record["checksum"] == Int(dir.checksum)
    && !force
  }

  /** The stored record merged into, if one was read. */
  function Previous(store: StoreRead): Record
  {
    if store.Stored? then store.record else map[]
  }

  /** The record written before `output path` is considered, key by key:
      the computed keys take their new values, a key of the validated
      metadata takes its new value, any other key keeps its stored value. */
  function MergedRecord(previous: Record, validated: Record, checksum: int, rendered: Rendered, path: string): Record
  {
    map k | k in previous.Keys + validated.Keys + {"checksum", "markdown", "summary", "input path"} ::
      if k == "checksum" then Int(checksum)
      else if k == "markdown" then Str(rendered.markdown)
      else if k == "summary" then Str(rendered.summary)
      else if k == "input path" then Str(path)
      else if k in validated then validated[k]
      else previous[k]
  }

  /** `str(POSTS_DIRECTORY / date.strftime("%Y/%m") / slug)`; pathlib drops
      an empty last component. */
  function OutputPath(yearMonth: string, slug: string): string
  {
    "posts/" + yearMonth + (if slug == "" then "" else "/" + slug)
  }

  /** What `update_article` does to one directory.  `yearMonth` is
      `strftime("%Y/%m")` of the parsed date value. */
  function ArticleOutcome(dir: ArticleDir, force: bool, normalise: string -> Option<string>, yearMonth: Value -> string): Outcome
  {
    if !dir.isDir || dir.store.Malformed? then Raised(ValueError)
    else if dir.store.Stored? && "checksum" !in dir.store.record then Raised(OtherError)  // KeyError
    else if dir.store.NotADict? then Raised(OtherError)  // TypeError of `store_info['checksum']`
    else if UpToDate(dir, force) then Unchanged
    else Rebuilt(dir, normalise, yearMonth)
  }

  /** What `update_article` does once it has decided not to skip.  An info
      literal that is not a dictionary cannot be indexed by a key, so every
      required key is a bad type and validation raises `ValueError`; but if
      it is not a container either, the `key in info` test of the optional
      keys raises `TypeError` first. */
  function Rebuilt(dir: ArticleDir, normalise: string -> Option<string>, yearMonth: Value -> string): Outcome
  {
    match dir.info
    case InfoUnreadable => Raised(OtherError)
    case InfoMalformed => Raised(ValueError)
    case InfoNotADict(container) => if container then Raised(ValueError) else Raised(OtherError)
    case Literal(info) =>
      match Validate(info, normalise)
      case Err(_) => Raised(ValueError)
      case Ok(validated) =>
        match dir.content
        case Err(kind) => Raised(kind)
        case Ok(rendered) =>
          ValidatedHasDate(info, normalise);
          WithOutputPath(MergedRecord(Previous(dir.store), validated, dir.checksum, rendered, dir.path), yearMonth)
  }

  /** The record written: an existing `output path` is kept, otherwise one
      is built from the date and the title slug. */
  function WithOutputPath(record: Record, yearMonth: Value -> string): Outcome
    requires "date" in record
  {
    if "output path" in record then Written(record)
    else match UrlSanitiseTitle(record)
      case None => Raised(OtherError)
      case Some(slug) => Written(record["output path" := Str(OutputPath(yearMonth(record["date"]), slug))])
  }

  /** `update_article(path, vars=...)`: the decision whether to skip, in the
      source's order of checks. */
  method UpdateArticle(dir: ArticleDir, force: bool, normalise: string -> Option<string>, yearMonth: Value -> string)
    returns (o: Outcome)
    ensures o == ArticleOutcome(dir, force, normalise, yearMonth)
  {
    if !dir.isDir {
      return Raised(ValueError);
    }
    match dir.store {
      case Stored(record) =>
        if "checksum" !in record {
          return Raised(OtherError);
        }
        if record["checksum"] == Int(dir.checksum) && !force {
          return Unchanged;
        }
      case Malformed =>
        return Raised(ValueError);
      case NotADict =>
        return Raised(OtherError);
      case _ =>
    }
    o := RebuildRecord(dir, normalise, yearMonth);
  }

  /** The rest of `update_article`: parse and validate the info file, merge
      it into the stored record by successive updates of a dictionary, and
      compute `output path` when the record has none. */
  method RebuildRecord(dir: ArticleDir, normalise: string -> Option<string>, yearMonth: Value -> string)
    returns (o: Outcome)
    ensures o == Rebuilt(dir, normalise, yearMonth)
  {
    var literal: Record;
    match dir.info {
      case InfoUnreadable => return Raised(OtherError);
      case InfoMalformed => return Raised(ValueError);
      case InfoNotADict(container) => return if container then Raised(ValueError) else Raised(OtherError);
      case Literal(l) => literal := l;
    }
    var validated := ValidateInfoFile(literal, normalise);
    if validated.Err? {
      return Raised(ValueError);
    }
    var info := validated.value;
    if dir.store.Stored? {
      info := dir.store.record + info;
    } else {
      assert info == Previous(dir.store) + info;
    }
    info := info["checksum" := Int(dir.checksum)];
    if dir.content.Err? {
      return Raised(dir.content.error);
    }
    info := info["markdown" := Str(dir.content.value.markdown)];
    info := info["summary" := Str(dir.content.value.summary)];
    info := info["input path" := Str(dir.path)];
    MergedBySteps(Previous(dir.store), validated.value, dir.checksum, dir.content.value, dir.path);
    assert info == MergedRecord(Previous(dir.store), validated.value, dir.checksum, dir.content.value, dir.path);
    ValidatedHasDate(literal, normalise);
    assert Rebuilt(dir, normalise, yearMonth) == WithOutputPath(info, yearMonth);
    o := SetOutputPath(info, yearMonth);
  }

  /** The last step of `update_article`: `output path` is computed only
      when the record lacks one. */
  method SetOutputPath(record: Record, yearMonth: Value -> string) returns (o: Outcome)
    requires "date" in record
    ensures o == WithOutputPath(record, yearMonth)
  {
    var info := record;
    if "output path" !in info {
      var slug := UrlSanitiseTitle(info);
      if slug.None? {
        return Raised(OtherError);
      }
      info := info["output path" := Str(OutputPath(yearMonth(info["date"]), slug.value))];
    }
    return Written(info);
  }

  lemma ValidatedHasDate(info: Record, normalise: string -> Option<string>)
    requires Validate(info, normalise).Ok?
    ensures "date" in Validate(info, normalise).value
  {
    ValidatedKeys(info, normalise);
    assert "date" in NecessaryKeys;
  }

  /** The successive dictionary updates of `update_article` build the
      merged record. */
  lemma MergedBySteps(previous: Record, validated: Record, checksum: int, rendered: Rendered, path: string)
    ensures (previous + validated)["checksum" := Int(checksum)]["markdown" := Str(rendered.markdown)]
      ["summary" := Str(rendered.summary)]["input path" := Str(path)]
      == MergedRecord(previous, validated, checksum, rendered, path)
  {
    var steps := (previous + validated)["checksum" := Int(checksum)]["markdown" := Str(rendered.markdown)]
      ["summary" := Str(rendered.summary)]["input path" := Str(path)];
    var merged := MergedRecord(previous, validated, checksum, rendered, path);
    assert steps.Keys == merged.Keys;
    forall k | k in steps
      ensures steps[k] == merged[k]
    {
    }
  }

  /** An article is skipped exactly when its directory exists and its stored
      checksum matches with no rebuild forced. */
  lemma SkipIffUpToDate(dir: ArticleDir, force: bool, normalise: string -> Option<string>, yearMonth: Value -> string)
    ensures ArticleOutcome(dir, force, normalise, yearMonth) == Unchanged <==> dir.isDir && UpToDate(dir, force)
  {
    RebuiltNeverSkips(dir, normalise, yearMonth);
  }

  lemma RebuiltNeverSkips(dir: ArticleDir, normalise: string -> Option<string>, yearMonth: Value -> string)
    ensures !Rebuilt(dir, normalise, yearMonth).Unchanged?
  {
    if dir.info.Literal? && Validate(dir.info.info, normalise).Ok? && dir.content.Ok? {
      ValidatedHasDate(dir.info.info, normalise);
    }
  }

  /** A record written for a directory: its metadata validated, its content read. */
  ghost predicate WrittenFrom(dir: ArticleDir, normalise: string -> Option<string>, validated: Record, rendered: Rendered)
  {
    dir.info.Literal? && Validate(dir.info.info, normalise) == Ok(validated) && dir.content == Ok(rendered)
  }

  /** What a written store record holds: the new checksum and conversions,
      the new metadata over the stored fields, the stored fields the new
      metadata does not mention, and the stored `output path` when there
      was one. */
  ghost predicate WrittenRecordHolds(record: Record, previous: Record, validated: Record, rendered: Rendered, dir: ArticleDir)
  {
    && record.Keys == previous.Keys + validated.Keys + ComputedKeys
    && record["checksum"] == Int(dir.checksum)
    && record["markdown"] == Str(rendered.markdown)
    && record["summary"] == Str(rendered.summary)
    && record["input path"] == Str(dir.path)
    && (forall k :: k in validated ==> record[k] == validated[k])
    && (forall k :: k in previous && k !in validated && k !in ComputedKeys ==> record[k] == previous[k])
    && ("output path" in previous ==> record["output path"] == previous["output path"])
  }

  lemma WrittenRecord(dir: ArticleDir, force: bool, normalise: string -> Option<string>, yearMonth: Value -> string)
    requires ArticleOutcome(dir, force, normalise, yearMonth).Written?
    ensures exists validated, rendered ::
      && WrittenFrom(dir, normalise, validated, rendered)
      && WrittenRecordHolds(ArticleOutcome(dir, force, normalise, yearMonth).record, Previous(dir.store), validated, rendered, dir)
  {
    var validated := Validate(dir.info.info, normalise).value;
    var rendered := dir.content.value;
    var merged := MergedRecord(Previous(dir.store), validated, dir.checksum, rendered, dir.path);
    assert WrittenFrom(dir, normalise, validated, rendered);
    ValidatedHasDate(dir.info.info, normalise);
    var o := ArticleOutcome(dir, force, normalise, yearMonth);
    assert o == WithOutputPath(merged, yearMonth);
    WithOutputPathKeeps(merged, yearMonth);
    ValidatedNotComputed(dir.info.info, normalise);
    WrittenHolds(merged, o.record, Previous(dir.store), validated, rendered, dir);
  }

  /** The record `WithOutputPath` writes from a merged record keeps what
      the merged record holds. */
  lemma WrittenHolds(merged: Record, record: Record, previous: Record, validated: Record, rendered: Rendered, dir: ArticleDir)
    requires merged == MergedRecord(previous, validated, dir.checksum, rendered, dir.path)
    requires forall k :: k in validated ==> k !in ComputedKeys
    requires record.Keys == merged.Keys + {"output path"} && forall k :: k in merged ==> record[k] == merged[k]
    ensures WrittenRecordHolds(record, previous, validated, rendered, dir)
  {
    MergedRecordHolds(previous, validated, dir.checksum, rendered, dir.path);
  }

  /** The merged record takes the computed keys from the new build, the
      metadata keys from the info file and everything else from the store. */
  lemma MergedRecordHolds(previous: Record, validated: Record, checksum: int, rendered: Rendered, path: string)
    requires forall k :: k in validated ==> k !in ComputedKeys
    ensures var m := MergedRecord(previous, validated, checksum, rendered, path);
      && m.Keys == previous.Keys + validated.Keys + (ComputedKeys - {"output path"})
      && m["checksum"] == Int(checksum) && m["markdown"] == Str(rendered.markdown)
      && m["summary"] == Str(rendered.summary) && m["input path"] == Str(path)
      && (forall k :: k in validated ==> m[k] == validated[k])
      && (forall k :: k in previous && k !in validated && k !in ComputedKeys ==> m[k] == previous[k])
      && ("output path" in previous ==> m["output path"] == previous["output path"])
  {
  }

  /** `output path` is added only to a record that lacks it; nothing else changes. */
  lemma WithOutputPathKeeps(record: Record, yearMonth: Value -> string)
    requires "date" in record
    ensures WithOutputPath(record, yearMonth).Written? ==>
      && WithOutputPath(record, yearMonth).record.Keys == record.Keys + {"output path"}
      && (forall k :: k in record ==> WithOutputPath(record, yearMonth).record[k] == record[k])
  {
  }

  /** Validated metadata never holds a computed key. */
  lemma ValidatedNotComputed(info: Record, normalise: string -> Option<string>)
    requires Validate(info, normalise).Ok?
    ensures forall k :: k in Validate(info, normalise).value ==> k !in ComputedKeys
  {
    KnownKeysNotComputed();
  }

  lemma KnownKeysNotComputed()
    ensures forall k :: k in NecessaryKeys || k in OptionalKeys ==> k !in ComputedKeys
  {
  }

  /** Writing a record makes the article up to date: the next run without
      `force` skips it. */
  lemma WrittenIsUpToDate(dir: ArticleDir, force: bool, normalise: string -> Option<string>, yearMonth: Value -> string)
    requires ArticleOutcome(dir, force, normalise, yearMonth).Written?
    ensures ArticleOutcome(dir.(store := Stored(ArticleOutcome(dir, force, normalise, yearMonth).record)), false, normalise, yearMonth) == Unchanged
  {
    WrittenRecord(dir, force, normalise, yearMonth);
  }

  /** With `force`, nothing is skipped. */
  lemma ForceNeverSkips(dir: ArticleDir, normalise: string -> Option<string>, yearMonth: Value -> string)
    ensures ArticleOutcome(dir, true, normalise, yearMonth) != Unchanged
  {
    SkipIffUpToDate(dir, true, normalise, yearMonth);
  }

  /** The result of `update_all_articles`: the exit code, or the index of
      the article whose exception escaped. */
  datatype Batch = Finished(exitCode: nat) | Aborted(at: nat)

  /** The outcome of updating each directory, in order. */
  function Outcomes(dirs: seq<ArticleDir>, force: bool, normalise: string -> Option<string>, yearMonth: Value -> string): (r: seq<Outcome>)
    ensures |r| == |dirs|
    ensures forall i :: 0 <= i < |dirs| ==> r[i] == ArticleOutcome(dirs[i], force, normalise, yearMonth)
  {
    seq(|dirs|, i requires 0 <= i < |dirs| => ArticleOutcome(dirs[i], force, normalise, yearMonth))
  }

  /** Number of outcomes that are a `ValueError`. */
  function Failures(os: seq<Outcome>): nat
  {
    if os == [] then 0
    else Failures(os[..|os| - 1]) + (if os[|os| - 1] == Raised(ValueError) then 1 else 0)
  }

  /** `update_all_articles(vars=...)` over the info files `glob` finds, in
      its order: each `ValueError` adds one to the exit code, any other
      exception ends the run at the directory that raised it. */
  method UpdateAllArticles(dirs: seq<ArticleDir>, force: bool, normalise: string -> Option<string>, yearMonth: Value -> string)
    returns (r: Batch)
    ensures var os := Outcomes(dirs, force, normalise, yearMonth);
      && (r.Finished? <==> Raised(OtherError) !in os)
      && (r.Finished? ==> r.exitCode == Failures(os))
      && (r.Aborted? ==> r.at < |os| && os[r.at] == Raised(OtherError) && Raised(OtherError) !in os[..r.at])
  {
    ghost var os := Outcomes(dirs, force, normalise, yearMonth);
    var exitCode := 0;
    var i := 0;
    while i < |dirs|
      invariant 0 <= i <= |dirs|
      invariant Raised(OtherError) !in os[..i]
      invariant exitCode == Failures(os[..i])
    {
      var o := UpdateArticle(dirs[i], force, normalise, yearMonth);
      FailuresStep(os, i, o);
      if o == Raised(OtherError) {
        return Aborted(i);
      }
      if o == Raised(ValueError) {
        exitCode := exitCode + 1;
      }
      i := i + 1;
    }
    assert os[..i] == os;
    return Finished(exitCode);
  }

  /** What the outcome at `i` contributes to the batch. */
  lemma FailuresStep(os: seq<Outcome>, i: nat, o: Outcome)
    requires i < |os| && o == os[i]
    ensures os[..i + 1] == os[..i] + [o]
    ensures Raised(OtherError) !in os[..i] && o != Raised(OtherError) ==> Raised(OtherError) !in os[..i + 1]
    ensures Failures(os[..i + 1]) == Failures(os[..i]) + (if o == Raised(ValueError) then 1 else 0)
  {
    assert os[..i + 1] == os[..i] + [o];
    assert os[..i + 1][..i] == os[..i];
  }

  /** The exit code counts exactly the outcomes that are a `ValueError`. */
  lemma {:induction false} FailuresCounts(os: seq<Outcome>)
    ensures Failures(os) == |set i | 0 <= i < |os| && os[i] == Raised(ValueError)|
  {
    if os != [] {
      var n := |os| - 1;
      var prefix := os[..n];
      FailuresCounts(prefix);
      var before := set i | 0 <= i < n && prefix[i] == Raised(ValueError);
      var all := set i | 0 <= i < |os| && os[i] == Raised(ValueError);
      assert before == set i | 0 <= i < n && os[i] == Raised(ValueError);
      if os[n] == Raised(ValueError) {
        assert all == before + {n};
      } else {
        assert all == before;
      }
    }
  }
}
