/**
 The brochure table, its append-only event log, and the lazily watermarked copy
 that public downloads cache next to the original. Repository transactions and
 single blob-store calls are atomic steps; a download is a sequence of them,
 so downloads, uploads and reviews interleave freely.
 */
module Brochures {
  import opened Wrappers

  type Key = string
  type BrochureId = nat
  type DownloadId = nat

  const SUFFIX := ".watermarked.pdf"

  /** A stored file: an uploaded one, or the watermarked rendering of another. */
  datatype File = Uploaded(content: nat) | Watermarked(source: File)

  datatype Status = Draft | PendingReview | Published | Rejected | Archived

  /** One row of the event log; `Draft` stands for the "-" of a brochure that did not exist. */
  datatype Event = Event(from: Status, to: Status)

  datatype Document = Document(
    storageKey: Key, status: Status, published: bool, watermarked: Option<Key>, events: seq<Event>)

  /** How far a download has come; `document` is the row it read at its start. */
  datatype Progress =
    | HasRow(id: BrochureId, document: Document)
    | HasOriginal(id: BrochureId, document: Document, original: File)
    | HasStored(id: BrochureId, document: Document, original: File)
    | Serves(id: BrochureId, document: Document, bytes: File)

  datatype State = State(
    rows: map<BrochureId, Document>,
    blobs: map<Key, File>,
    uploads: map<Key, File>,
    downloads: map<DownloadId, Progress>)

  const EMPTY := State(map[], map[], map[], map[])

  datatype Step =
    | Put(key: Key, file: File)
    | Create(id: BrochureId, key: Key)
    | Publish(id: BrochureId, key: Key)
    | ChangeStatus(id: BrochureId, expected: Status, to: Status)
    | Discover(id: BrochureId, key: Key)
    | Remove(key: Key)
    | Start(download: DownloadId, id: BrochureId)
    | FetchCached(download: DownloadId)
    | FetchOriginal(download: DownloadId)
    | StoreCopy(download: DownloadId)
    | SetKey(download: DownloadId)
    | GiveUp(download: DownloadId)

  predicate IsCopyKey(key: Key) {
    |SUFFIX| <= |key| && key[|key| - |SUFFIX|..] == SUFFIX
  }

  function BaseKey(copy: Key): Key
    requires IsCopyKey(copy)
  {
    copy[..|copy| - |SUFFIX|]
  }

  function StatusBefore(s: State, id: BrochureId): Status {
    if id in s.rows then s.rows[id].status else Draft
  }

  function EventsBefore(s: State, id: BrochureId): seq<Event> {
    if id in s.rows then s.rows[id].events else []
  }

  function Logged(s: State, id: BrochureId, to: Status): seq<Event> {
    EventsBefore(s, id) + [Event(StatusBefore(s, id), to)]
  }

  function WithRow(s: State, id: BrochureId, document: Document): State {
    s.(rows := s.rows[id := document])
  }

  function WithDownload(s: State, d: DownloadId, progress: Progress): State {
    s.(downloads := s.downloads[d := progress])
  }

  /** ReviewBrochure and SetBrochurePublished reach changeBrochureStatus with these pairs only. */
  predicate Transition(expected: Status, to: Status) {
    || (expected == PendingReview && (to == Published || to == Rejected))
    || (expected == Published && to == Archived)
    || (expected == Archived && to == Published)
  }

  ghost predicate Enabled(s: State, step: Step) {
    match step
    case Put(key, file) => !IsCopyKey(key) && key !in s.uploads && file.Uploaded?
    case Create(_, key) => key in s.uploads
    case Publish(_, key) => key in s.uploads
    case Discover(_, key) => key in s.uploads
    case ChangeStatus(id, expected, to) => Transition(expected, to) && id in s.rows && s.rows[id].status == expected
    case Remove(_) => true
    case Start(d, id) => d !in s.downloads && id in s.rows && s.rows[id].status == Published
    case FetchCached(d) =>
      d in s.downloads && s.downloads[d].HasRow? && s.downloads[d].document.watermarked.Some?
      && s.downloads[d].document.watermarked.value in s.blobs
    case FetchOriginal(d) =>
      d in s.downloads && s.downloads[d].HasRow? && s.downloads[d].document.watermarked.None?
      && s.downloads[d].document.storageKey in s.blobs
    case StoreCopy(d) => d in s.downloads && s.downloads[d].HasOriginal?
    case SetKey(d) => d in s.downloads && s.downloads[d].HasStored?
    case GiveUp(d) => d in s.downloads && !s.downloads[d].HasRow?
  }

  function Next(s: State, step: Step): State
    requires Enabled(s, step)
  {
    match step
    case Put(key, file) => s.(blobs := s.blobs[key := file], uploads := s.uploads[key := file])
    case Create(id, key) => WithRow(s, id, Document(key, PendingReview, false, None, Logged(s, id, PendingReview)))
    case Publish(id, key) => WithRow(s, id, Document(key, Published, true, None, Logged(s, id, Published)))
    // The discovery repository replaces the file but leaves watermarked_storage_key alone.
    case Discover(id, key) =>
      var kept := if id in s.rows then s.rows[id].watermarked else None;
      WithRow(s, id, Document(key, PendingReview, false, kept, Logged(s, id, PendingReview)))
    case ChangeStatus(id, expected, to) =>
      WithRow(s, id, s.rows[id].(status := to, published := to == Published, events := Logged(s, id, to)))
    case Remove(key) => s.(blobs := s.blobs - {key})
    case Start(d, id) => WithDownload(s, d, HasRow(id, s.rows[id]))
    case FetchCached(d) =>
      var p := s.downloads[d];
      WithDownload(s, d, Serves(p.id, p.document, s.blobs[p.document.watermarked.value]))
    case FetchOriginal(d) =>
      var p := s.downloads[d];
      WithDownload(s, d, HasOriginal(p.id, p.document, s.blobs[p.document.storageKey]))
    case StoreCopy(d) =>
      var p := s.downloads[d];
      WithDownload(s.(blobs := s.blobs[p.document.storageKey + SUFFIX := Watermarked(p.original)]), d,
                   HasStored(p.id, p.document, p.original))
    // UPDATE ... WHERE storage_key = the key the download started from.
    case SetKey(d) =>
      var p := s.downloads[d];
      var served := WithDownload(s, d, Serves(p.id, p.document, Watermarked(p.original)));
      if p.id in s.rows && s.rows[p.id].storageKey == p.document.storageKey
      then WithRow(served, p.id, s.rows[p.id].(watermarked := Some(p.document.storageKey + SUFFIX)))
      else served
    // Watermarking, storing the copy or recording its key failed: serve what there is.
    case GiveUp(d) =>
      var p := s.downloads[d];
      if p.Serves? then s
      else WithDownload(s, d, Serves(p.id, p.document, if p.HasOriginal? then p.original else Watermarked(p.original)))
  }

  // ---- the event log ------------------------------------------------------

  ghost predicate Connected(events: seq<Event>) {
    && events != [] && events[0].from == Draft
    && forall i :: 0 < i < |events| ==> events[i].from == events[i - 1].to
  }

  /** The log is a path from "-" to the row's status, and the row is dated exactly when it is published. */
  ghost predicate LogConsistent(document: Document) {
    && Connected(document.events) && document.events[|document.events| - 1].to == document.status
    && (document.published <==> document.status == Published) && document.status != Draft
  }

  // ---- the watermark cache ------------------------------------------------

  /** Bytes that come from the file a row's storage key names: that file, or its watermarked copy. */
  ghost predicate Derived(s: State, document: Document, bytes: File) {
    && document.storageKey in s.uploads
    && (bytes == s.uploads[document.storageKey] || bytes == Watermarked(s.uploads[document.storageKey]))
  }

  /** The cached key of a row is the one made from its present storage key. */
  ghost predicate CacheCurrent(document: Document) {
    document.watermarked.Some? ==> document.watermarked.value == document.storageKey + SUFFIX
  }

  ghost predicate BlobsAuthentic(s: State) {
    && (forall key :: key in s.uploads ==> !IsCopyKey(key) && s.uploads[key].Uploaded?)
    && (forall key :: key in s.blobs && !IsCopyKey(key) ==> key in s.uploads && s.blobs[key] == s.uploads[key])
    && (forall key :: key in s.blobs && IsCopyKey(key) ==>
          BaseKey(key) in s.uploads && s.blobs[key] == Watermarked(s.uploads[BaseKey(key)]))
  }

  /** The files a row names: an uploaded one, and as its copy that of an uploaded one, its own or another. */
  ghost predicate KeysKnown(s: State, document: Document) {
    && document.storageKey in s.uploads
    && (document.watermarked.Some? ==>
          IsCopyKey(document.watermarked.value) && BaseKey(document.watermarked.value) in s.uploads)
  }

  /** Its copy was made from a file with other contents. */
  ghost predicate CopiesOther(s: State, document: Document)
    requires KeysKnown(s, document)
  {
    document.watermarked.Some? && s.uploads[BaseKey(document.watermarked.value)] != s.uploads[document.storageKey]
  }

  ghost predicate DownloadSound(s: State, progress: Progress) {
    && KeysKnown(s, progress.document)
    && match progress
       case HasRow(_, _) => true
       case HasOriginal(_, document, original) =>
         document.watermarked.None? && original == s.uploads[document.storageKey]
       case HasStored(_, document, original) =>
         document.watermarked.None? && original == s.uploads[document.storageKey]
       case Serves(_, document, bytes) =>
         if document.watermarked.Some? then bytes == Watermarked(s.uploads[BaseKey(document.watermarked.value)])
         else Derived(s, document, bytes)
  }

  /** What every step keeps, discoveries included. */
  ghost predicate Sound(s: State) {
    && BlobsAuthentic(s)
    && (forall id :: id in s.rows ==> LogConsistent(s.rows[id]) && KeysKnown(s, s.rows[id]))
    && (forall d :: d in s.downloads ==> DownloadSound(s, s.downloads[d]))
  }

  /** And with every copy made from its row's own file, in the table and in the rows downloads have read. */
  ghost predicate Inv(s: State) {
    && Sound(s) && (forall id :: id in s.rows ==> CacheCurrent(s.rows[id]))
    && (forall d :: d in s.downloads ==> CacheCurrent(s.downloads[d].document))
  }

  /** A discovered candidate replacing the file of a row that still caches a copy of the old one. */
  predicate LeavesStaleCopy(s: State, step: Step) {
    step.Discover? && step.id in s.rows && s.rows[step.id].watermarked.Some? && step.key != s.rows[step.id].storageKey
  }

  lemma CopyKeyOf(key: Key)
    ensures IsCopyKey(key + SUFFIX) && BaseKey(key + SUFFIX) == key
  {
  }

  lemma StepKeepsUploads(s: State, step: Step, key: Key)
    requires Sound(s) && Enabled(s, step) && key in s.uploads
    ensures key in Next(s, step).uploads && Next(s, step).uploads[key] == s.uploads[key]
  {
  }

  lemma StepKeepsOriginal(s: State, step: Step, key: Key)
    requires Sound(s) && Enabled(s, step) && key in Next(s, step).blobs && !IsCopyKey(key)
    ensures key in Next(s, step).uploads && Next(s, step).blobs[key] == Next(s, step).uploads[key]
  {
  }

  lemma StepKeepsCopy(s: State, step: Step, key: Key)
    requires Sound(s) && Enabled(s, step) && key in Next(s, step).blobs && IsCopyKey(key)
    ensures BaseKey(key) in Next(s, step).uploads
    ensures Next(s, step).blobs[key] == Watermarked(Next(s, step).uploads[BaseKey(key)])
  {
  }

  lemma StepKeepsBlobs(s: State, step: Step)
    requires Sound(s) && Enabled(s, step)
    ensures BlobsAuthentic(Next(s, step))
    ensures forall key :: key in s.uploads ==>
      key in Next(s, step).uploads && Next(s, step).uploads[key] == s.uploads[key]
  {
    var s' := Next(s, step);
    forall key | key in s.uploads ensures key in s'.uploads && s'.uploads[key] == s.uploads[key] {
      StepKeepsUploads(s, step, key);
    }
    forall key | key in s'.blobs && !IsCopyKey(key) ensures key in s'.uploads && s'.blobs[key] == s'.uploads[key] {
      StepKeepsOriginal(s, step, key);
    }
    forall key | key in s'.blobs && IsCopyKey(key)
      ensures BaseKey(key) in s'.uploads && s'.blobs[key] == Watermarked(s'.uploads[BaseKey(key)])
    {
      StepKeepsCopy(s, step, key);
    }
  }

  lemma StepKeepsKeys(s: State, step: Step, document: Document)
    requires Sound(s) && Enabled(s, step) && KeysKnown(s, document)
    ensures KeysKnown(Next(s, step), document)
    ensures CopiesOther(Next(s, step), document) <==> CopiesOther(s, document)
  {
    StepKeepsUploads(s, step, document.storageKey);
    if document.watermarked.Some? {
      StepKeepsUploads(s, step, BaseKey(document.watermarked.value));
    }
  }

  lemma OtherDownloadKept(s: State, step: Step, d: DownloadId)
    requires Sound(s) && Enabled(s, step) && d in s.downloads && Next(s, step).downloads[d] == s.downloads[d]
    ensures DownloadSound(Next(s, step), s.downloads[d])
  {
    StepKeepsKeys(s, step, s.downloads[d].document);
    StepKeepsUploads(s, step, s.downloads[d].document.storageKey);
  }

  lemma OwnDownloadAdvances(s: State, step: Step, d: DownloadId)
    requires Sound(s) && Enabled(s, step) && d in Next(s, step).downloads
    requires d !in s.downloads || Next(s, step).downloads[d] != s.downloads[d]
    ensures DownloadSound(Next(s, step), Next(s, step).downloads[d])
  {
    if d in s.downloads {
      assert DownloadSound(s, s.downloads[d]);
      StepKeepsKeys(s, step, s.downloads[d].document);
    }
  }

  lemma StepKeepsDownloads(s: State, step: Step, d: DownloadId)
    requires Sound(s) && Enabled(s, step) && d in Next(s, step).downloads
    ensures DownloadSound(Next(s, step), Next(s, step).downloads[d])
  {
    if d in s.downloads && Next(s, step).downloads[d] == s.downloads[d] {
      OtherDownloadKept(s, step, d);
    } else {
      OwnDownloadAdvances(s, step, d);
    }
  }

  /** Every step of every kind extends a connected log, or leaves it alone. */
  lemma StepKeepsLog(s: State, step: Step, id: BrochureId)
    requires Enabled(s, step) && id in Next(s, step).rows
    requires id in s.rows ==> LogConsistent(s.rows[id])
    ensures LogConsistent(Next(s, step).rows[id])
    ensures EventsBefore(s, id) <= Next(s, step).rows[id].events
  {
  }

  lemma StepKeepsRowKeys(s: State, step: Step, id: BrochureId)
    requires Sound(s) && Enabled(s, step) && id in Next(s, step).rows
    ensures KeysKnown(Next(s, step), Next(s, step).rows[id])
  {
    if id in s.rows {
      StepKeepsKeys(s, step, s.rows[id]);
    }
    if step.SetKey? {
      CopyKeyOf(s.downloads[step.download].document.storageKey);
    }
  }

  lemma StepKeepsSound(s: State, step: Step)
    requires Sound(s) && Enabled(s, step)
    ensures Sound(Next(s, step))
  {
    var s' := Next(s, step);
    StepKeepsBlobs(s, step);
    forall d | d in s'.downloads ensures DownloadSound(s', s'.downloads[d]) {
      StepKeepsDownloads(s, step, d);
    }
    forall id | id in s'.rows ensures LogConsistent(s'.rows[id]) && KeysKnown(s', s'.rows[id]) {
      StepKeepsLog(s, step, id);
      StepKeepsRowKeys(s, step, id);
    }
  }

  lemma StepKeepsRow(s: State, step: Step, id: BrochureId)
    requires Inv(s) && Enabled(s, step) && !LeavesStaleCopy(s, step) && id in Next(s, step).rows
    ensures CacheCurrent(Next(s, step).rows[id])
  {
  }

  lemma StepKeepsRowRead(s: State, step: Step, d: DownloadId)
    requires Inv(s) && Enabled(s, step) && d in Next(s, step).downloads
    ensures CacheCurrent(Next(s, step).downloads[d].document)
  {
  }

  lemma DiscoveryLeavesStaleRow(s: State, step: Step)
    requires Inv(s) && Enabled(s, step) && LeavesStaleCopy(s, step)
    ensures step.id in Next(s, step).rows && !CacheCurrent(Next(s, step).rows[step.id])
  {
    CopyKeyOf(step.key);
    CopyKeyOf(s.rows[step.id].storageKey);
  }

  /**
   A step keeps every row's cached key current exactly when it is not a
   discovery that replaces the file of a row with a cached copy.
   */
  lemma CacheStaysCurrentUnlessDiscovered(s: State, step: Step)
    requires Inv(s) && Enabled(s, step)
    ensures Inv(Next(s, step)) <==> !LeavesStaleCopy(s, step)
  {
    var s' := Next(s, step);
    if LeavesStaleCopy(s, step) {
      DiscoveryLeavesStaleRow(s, step);
    } else {
      StepKeepsSound(s, step);
      forall d | d in s'.downloads ensures CacheCurrent(s'.downloads[d].document) {
        StepKeepsRowRead(s, step, d);
      }
      forall id | id in s'.rows ensures CacheCurrent(s'.rows[id]) {
        StepKeepsRow(s, step, id);
      }
    }
  }

  // ---- whole runs ---------------------------------------------------------

  ghost predicate CanRun(s: State, steps: seq<Step>)
    decreases |steps|
  {
    steps == [] || (Enabled(s, steps[0]) && CanRun(Next(s, steps[0]), steps[1..]))
  }

  ghost function Run(s: State, steps: seq<Step>): State
    requires CanRun(s, steps)
    decreases |steps|
  {
    if steps == [] then s else Run(Next(s, steps[0]), steps[1..])
  }

  /** In every interleaving, however many discoveries it holds, each log is a path to its row's status. */
  lemma {:induction false} LogsAlwaysConsistent(s: State, steps: seq<Step>, id: BrochureId)
    requires CanRun(s, steps) && (id in s.rows ==> LogConsistent(s.rows[id]))
    ensures id in s.rows ==> id in Run(s, steps).rows
    ensures id in Run(s, steps).rows ==>
      LogConsistent(Run(s, steps).rows[id]) && EventsBefore(s, id) <= Run(s, steps).rows[id].events
    decreases |steps|
  {
    if steps != [] {
      var s' := Next(s, steps[0]);
      if id in s'.rows {
        StepKeepsLog(s, steps[0], id);
      }
      LogsAlwaysConsistent(s', steps[1..], id);
    }
  }

  ghost predicate NoStaleCopies(s: State, steps: seq<Step>)
    requires CanRun(s, steps)
    decreases |steps|
  {
    steps == [] || (!LeavesStaleCopy(s, steps[0]) && NoStaleCopies(Next(s, steps[0]), steps[1..]))
  }

  lemma {:induction false} RunKeepsInv(s: State, steps: seq<Step>)
    requires Inv(s) && CanRun(s, steps) && NoStaleCopies(s, steps)
    ensures Inv(Run(s, steps))
    decreases |steps|
  {
    if steps != [] {
      CacheStaysCurrentUnlessDiscovered(s, steps[0]);
      RunKeepsInv(Next(s, steps[0]), steps[1..]);
    }
  }

  /** At every moment every row's cached key is the one made from its present file. */
  ghost predicate CurrentThroughout(s: State, steps: seq<Step>)
    requires CanRun(s, steps)
    decreases |steps|
  {
    && (forall id :: id in s.rows ==> CacheCurrent(s.rows[id]))
    && (steps != [] ==> CurrentThroughout(Next(s, steps[0]), steps[1..]))
  }

  /**
   Over every interleaving the cached keys stay current at every moment exactly when no
   discovery replaces a file with a cached copy.
   */
  lemma {:induction false} CurrentExactlyWhenNoStaleCopies(s: State, steps: seq<Step>)
    requires Inv(s) && CanRun(s, steps)
    ensures CurrentThroughout(s, steps) <==> NoStaleCopies(s, steps)
    decreases |steps|
  {
    if steps != [] {
      CacheStaysCurrentUnlessDiscovered(s, steps[0]);
      if LeavesStaleCopy(s, steps[0]) {
        DiscoveryLeavesStaleRow(s, steps[0]);
      } else {
        CurrentExactlyWhenNoStaleCopies(Next(s, steps[0]), steps[1..]);
      }
    }
  }

  lemma {:induction false} RunKeepsSound(s: State, steps: seq<Step>)
    requires Sound(s) && CanRun(s, steps)
    ensures Sound(Run(s, steps))
    decreases |steps|
  {
    if steps != [] {
      StepKeepsSound(s, steps[0]);
      RunKeepsSound(Next(s, steps[0]), steps[1..]);
    }
  }

  /**
   In every interleaving, discoveries included, a download serves bytes foreign
   to the file of the row it read exactly when that row carried the key of a
   copy made from a file with other contents.
   */
  lemma ForeignExactlyWhenCopied(steps: seq<Step>, d: DownloadId)
    requires CanRun(EMPTY, steps) && d in Run(EMPTY, steps).downloads && Run(EMPTY, steps).downloads[d].Serves?
    ensures var e := Run(EMPTY, steps);
      KeysKnown(e, e.downloads[d].document)
      && (!Derived(e, e.downloads[d].document, e.downloads[d].bytes) <==> CopiesOther(e, e.downloads[d].document))
  {
    RunKeepsSound(EMPTY, steps);
    assert DownloadSound(Run(EMPTY, steps), Run(EMPTY, steps).downloads[d]);
  }

  /** Hence never without such a discovery. */
  lemma DownloadsServeTheirRow(steps: seq<Step>, d: DownloadId)
    requires CanRun(EMPTY, steps) && NoStaleCopies(EMPTY, steps)
    requires d in Run(EMPTY, steps).downloads && Run(EMPTY, steps).downloads[d].Serves?
    ensures Derived(Run(EMPTY, steps), Run(EMPTY, steps).downloads[d].document, Run(EMPTY, steps).downloads[d].bytes)
  {
    RunKeepsInv(EMPTY, steps);
    ForeignExactlyWhenCopied(steps, d);
    CopyKeyOf(Run(EMPTY, steps).downloads[d].document.storageKey);
  }

  /** In the run the download gives up with the original in hand: its rendering has failed. */
  ghost predicate RenderingFails(s: State, steps: seq<Step>, d: DownloadId)
    requires CanRun(s, steps)
    decreases |steps|
  {
    steps != []
    && ((steps[0] == GiveUp(d) && s.downloads[d].HasOriginal?) || RenderingFails(Next(s, steps[0]), steps[1..], d))
  }

  lemma ServedStays(s: State, step: Step, d: DownloadId)
    requires Enabled(s, step) && d in s.downloads && s.downloads[d].Serves?
    ensures d in Next(s, step).downloads && Next(s, step).downloads[d] == s.downloads[d]
  {
  }

  lemma {:induction false} ServedIsFinal(s: State, steps: seq<Step>, d: DownloadId)
    requires CanRun(s, steps) && d in s.downloads && s.downloads[d].Serves?
    ensures d in Run(s, steps).downloads && Run(s, steps).downloads[d] == s.downloads[d]
    ensures !RenderingFails(s, steps, d)
    decreases |steps|
  {
    if steps != [] {
      ServedStays(s, steps[0], d);
      ServedIsFinal(Next(s, steps[0]), steps[1..], d);
    }
  }

  /** The step that makes a download serve decides whether the bytes are watermarked. */
  lemma ServingStep(s: State, step: Step, d: DownloadId)
    requires Sound(s) && Enabled(s, step) && !(d in s.downloads && s.downloads[d].Serves?)
    requires d in Next(s, step).downloads && Next(s, step).downloads[d].Serves?
    ensures d in s.downloads
    ensures Next(s, step).downloads[d].bytes.Uploaded? <==> step == GiveUp(d) && s.downloads[d].HasOriginal?
  {
    assert DownloadSound(s, s.downloads[d]);
  }

  lemma {:induction false} BareFrom(s: State, steps: seq<Step>, d: DownloadId)
    requires Sound(s) && CanRun(s, steps) && !(d in s.downloads && s.downloads[d].Serves?)
    requires d in Run(s, steps).downloads && Run(s, steps).downloads[d].Serves?
    ensures Run(s, steps).downloads[d].bytes.Uploaded? <==> RenderingFails(s, steps, d)
    decreases |steps|
  {
    if steps != [] {
      var next := Next(s, steps[0]);
      StepKeepsSound(s, steps[0]);
      if d in next.downloads && next.downloads[d].Serves? {
        ServingStep(s, steps[0], d);
        ServedIsFinal(next, steps[1..], d);
      } else {
        BareFrom(next, steps[1..], d);
      }
    }
  }

  /** In every run a download serves a file without watermark exactly when its rendering failed. */
  lemma BareExactlyWhenRenderingFails(steps: seq<Step>, d: DownloadId)
    requires CanRun(EMPTY, steps) && d in Run(EMPTY, steps).downloads && Run(EMPTY, steps).downloads[d].Serves?
    ensures Run(EMPTY, steps).downloads[d].bytes.Uploaded? <==> RenderingFails(EMPTY, steps, d)
  {
    BareFrom(EMPTY, steps, d);
  }

  // ---- what the public sees ------------------------------------------------------

  /** A brochure becomes public by an administrator's upload, an approving review, or from the archive. */
  lemma PublicOnlyByReview(s: State, step: Step, id: BrochureId)
    requires Enabled(s, step) && id in Next(s, step).rows && Next(s, step).rows[id].status == Published
    requires StatusBefore(s, id) != Published
    ensures (step.Publish? && step.id == id)
      || (step.ChangeStatus? && step.id == id && StatusBefore(s, id) in {PendingReview, Archived})
  {
  }

  /** Only a pending brochure is rejected, only a published one archived, and a new file makes it pending again. */
  lemma StatusMoves(s: State, step: Step, id: BrochureId)
    requires Enabled(s, step) && id in Next(s, step).rows && Next(s, step).rows[id].status != StatusBefore(s, id)
    ensures Next(s, step).rows[id].status == Rejected ==> StatusBefore(s, id) == PendingReview
    ensures Next(s, step).rows[id].status == Archived ==> StatusBefore(s, id) == Published
    ensures Next(s, step).rows[id].status == PendingReview ==>
      (step.Create? || step.Discover?) && step.id == id && Next(s, step).rows[id].storageKey == step.key
  {
  }

  /** A review takes a brochure where it may go from where it stands: out of an archive, never out of a rejection. */
  lemma ReviewsReach(s: State, id: BrochureId, to: Status)
    requires id in s.rows
    ensures Enabled(s, ChangeStatus(id, s.rows[id].status, to)) <==>
      match to
      case Published => s.rows[id].status in {PendingReview, Archived}
      case Rejected => s.rows[id].status == PendingReview
      case Archived => s.rows[id].status == Published
      case _ => false
  {
  }

  /** An upload puts its file in the row, without a copy, pending or published as it was made. */
  lemma UploadsReplaceTheFile(s: State, id: BrochureId, key: Key)
    requires key in s.uploads
    ensures var row := Next(s, Create(id, key)).rows[id];
      row.storageKey == key && row.watermarked.None? && row.status == PendingReview && !row.published
    ensures var row := Next(s, Publish(id, key)).rows[id];
      row.storageKey == key && row.watermarked.None? && row.status == Published && row.published
    ensures var row := Next(s, Discover(id, key)).rows[id];
      row.storageKey == key && row.status == PendingReview && !row.published
  {
  }

  /** The first download of a published file serves it watermarked, and leaves that copy in the row for the next one. */
  lemma FirstDownloadCaches(s: State, id: BrochureId, d: DownloadId)
    requires id in s.rows && s.rows[id].status == Published && s.rows[id].watermarked.None?
    requires s.rows[id].storageKey in s.blobs && d !in s.downloads
    ensures var s1 := Next(s, Start(d, id));
      Enabled(s1, FetchOriginal(d)) &&
      var s2 := Next(s1, FetchOriginal(d));
      Enabled(s2, StoreCopy(d)) &&
      var s3 := Next(s2, StoreCopy(d));
      Enabled(s3, SetKey(d)) &&
      var s4, copy := Next(s3, SetKey(d)), s.rows[id].storageKey + ".watermarked.pdf";
      && s4.downloads[d].Serves? && s4.downloads[d].bytes == Watermarked(s.blobs[s.rows[id].storageKey])
      && s4.rows == s.rows[id := s.rows[id].(watermarked := Some(copy))]
      && s4.blobs == s.blobs[copy := s4.downloads[d].bytes]
  {
  }

  /** Every later one serves the copy the row names, whatever it is. */
  lemma LaterDownloadServesCopy(s: State, id: BrochureId, d: DownloadId)
    requires id in s.rows && s.rows[id].status == Published && s.rows[id].watermarked.Some?
    requires s.rows[id].watermarked.value in s.blobs && d !in s.downloads
    ensures var s1 := Next(s, Start(d, id));
      !Enabled(s1, FetchOriginal(d)) && Enabled(s1, FetchCached(d)) &&
      var s2 := Next(s1, FetchCached(d));
      s2.downloads[d].Serves? && s2.downloads[d].bytes == s.blobs[s.rows[id].watermarked.value]
      && s2.rows == s.rows && s2.blobs == s.blobs
  {
  }

  /** An upload stores its file under its key, where a published brochure's first download finds it. */
  lemma UploadIsStored(s: State, id: BrochureId, key: Key, file: File, d: DownloadId)
    requires Enabled(s, Put(key, file)) && d !in s.downloads
    ensures var s1 := Next(s, Put(key, file));
      Enabled(s1, Publish(id, key)) &&
      var s2 := Next(s1, Publish(id, key));
      Enabled(s2, Start(d, id)) && Enabled(Next(s2, Start(d, id)), FetchOriginal(d)) && s2.blobs[key] == file
  {
  }

  /** Once its file is removed a download cannot read it, and every other file is still there. */
  lemma RemovedFileIsGone(s: State, key: Key, d: DownloadId, other: Key)
    requires d in s.downloads && s.downloads[d].HasRow?
    requires key == match s.downloads[d].document.watermarked
                    case Some(copy) => copy
                    case None => s.downloads[d].document.storageKey
    ensures !Enabled(Next(s, Remove(key)), FetchCached(d)) && !Enabled(Next(s, Remove(key)), FetchOriginal(d))
    ensures other != key ==> (other in Next(s, Remove(key)).blobs <==> other in s.blobs)
  {
  }

  lemma {:induction false} ReadsPublished(s: State, steps: seq<Step>, d: DownloadId)
    requires CanRun(s, steps) && (d in s.downloads ==> s.downloads[d].document.status == Published)
    ensures d in Run(s, steps).downloads ==> Run(s, steps).downloads[d].document.status == Published
    decreases |steps|
  {
    if steps != [] {
      ReadsPublished(Next(s, steps[0]), steps[1..], d);
    }
  }

  /** In every run a download serves a document that was published when it was asked for. */
  lemma OnlyPublishedIsServed(steps: seq<Step>, d: DownloadId)
    requires CanRun(EMPTY, steps) && d in Run(EMPTY, steps).downloads
    ensures Run(EMPTY, steps).downloads[d].document.status == Published
  {
    ReadsPublished(EMPTY, steps, d);
  }

  /**
   What goes wrong otherwise: once the new candidate is confirmed, a download
   of the new document serves the old file's copy.
   */
  lemma StaleCopyIsServed(s: State, id: BrochureId, key: Key, d: DownloadId)
    requires Inv(s) && Enabled(s, Discover(id, key)) && LeavesStaleCopy(s, Discover(id, key))
    requires s.rows[id].watermarked.value in s.blobs && d !in s.downloads
    requires s.uploads[key] != s.uploads[s.rows[id].storageKey]
    ensures var s1 := Next(s, Discover(id, key));
      Enabled(s1, ChangeStatus(id, PendingReview, Published)) &&
      var s2 := Next(s1, ChangeStatus(id, PendingReview, Published));
      Enabled(s2, Start(d, id)) &&
      var s3 := Next(s2, Start(d, id));
      Enabled(s3, FetchCached(d)) &&
      var s4 := Next(s3, FetchCached(d));
      d in s4.downloads && s4.downloads[d].Serves? && s4.downloads[d].document.storageKey == key
      && !Derived(s4, s4.downloads[d].document, s4.downloads[d].bytes)
  {
    CopyKeyOf(s.rows[id].storageKey);
  }
}
