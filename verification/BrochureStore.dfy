/** The brochure repository's transactions and the handler's lazy watermarking, statement by statement. */
module BrochureStore {
  import opened Wrappers
  import opened Brochures

  lemma StoredCopyKeeps(s: State, key: Key)
    requires Sound(s) && key in s.uploads
    ensures var s' := s.(blobs := s.blobs[key + SUFFIX := Watermarked(s.uploads[key])]);
      Sound(s') && (Inv(s) ==> Inv(s'))
  {
    CopyKeyOf(key);
  }

  lemma RecordedKeyKeeps(s: State, id: BrochureId, key: Key)
    requires Sound(s) && id in s.rows && s.rows[id].storageKey == key
    ensures var s' := WithRow(s, id, s.rows[id].(watermarked := Some(key + SUFFIX)));
      Sound(s') && (Inv(s) ==> Inv(s'))
  {
    CopyKeyOf(key);
  }

  /** What a row's keys name in the blob store. */
  lemma FetchedIsDerived(s: State, document: Document)
    requires Sound(s) && KeysKnown(s, document)
    ensures document.watermarked.Some? && document.watermarked.value in s.blobs ==>
      (Derived(s, document, s.blobs[document.watermarked.value]) <==> !CopiesOther(s, document))
    ensures document.storageKey in s.blobs ==> s.blobs[document.storageKey] == s.uploads[document.storageKey]
  {
  }

  class Store {
    var rows: map<BrochureId, Document>
    var blobs: map<Key, File>
    ghost var uploads: map<Key, File>
    ghost var downloads: map<DownloadId, Progress>

    ghost function Tables(): State
      reads this
    {
      State(rows, blobs, uploads, downloads)
    }

    constructor ()
      ensures Tables() == EMPTY
    {
      rows, blobs, uploads, downloads := map[], map[], map[], map[];
    }

    /** createBrochure: upsert the pending row without a cached copy, then log the move from its old status. */
    method CreateBrochure(id: BrochureId, key: Key) returns (oldKey: Key)
      requires key in uploads
      modifies `rows
      ensures Tables() == Next(old(Tables()), Create(id, key))
      ensures oldKey == if id in old(rows) then old(rows)[id].storageKey else ""
    {
      var oldStatus, log := Draft, [];
      oldKey := "";
      if id in rows {
        oldKey, oldStatus, log := rows[id].storageKey, rows[id].status, rows[id].events;
      }
      rows := rows[id := Document(key, PendingReview, false, None, log)];
      rows := rows[id := rows[id].(events := rows[id].events + [Event(oldStatus, PendingReview)])];
    }

    method PublishBrochureInTx(id: BrochureId, key: Key) returns (oldKey: Key)
      requires key in uploads
      modifies `rows
      ensures Tables() == Next(old(Tables()), Publish(id, key))
      ensures oldKey == if id in old(rows) then old(rows)[id].storageKey else ""
    {
      var oldStatus, log := Draft, [];
      oldKey := "";
      if id in rows {
        oldKey, oldStatus, log := rows[id].storageKey, rows[id].status, rows[id].events;
      }
      rows := rows[id := Document(key, Published, true, None, log)];
      rows := rows[id := rows[id].(events := rows[id].events + [Event(oldStatus, Published)])];
    }

    method ChangeBrochureStatus(id: BrochureId, expected: Status, to: Status) returns (ok: bool)
      requires Transition(expected, to)
      modifies `rows
      ensures ok <==> Enabled(old(Tables()), ChangeStatus(id, expected, to))
      ensures Tables() == if ok then Next(old(Tables()), ChangeStatus(id, expected, to)) else old(Tables())
    {
      if id !in rows || rows[id].status != expected {
        return false;
      }
      var oldStatus := rows[id].status;
      rows := rows[id := rows[id].(status := to, published := to == Published)];
      rows := rows[id := rows[id].(events := rows[id].events + [Event(oldStatus, to)])];
      return true;
    }

    /** Only a row that still has the expected file takes the key. */
    method SetBrochureWatermarkedKey(id: BrochureId, expected: Key, copy: Key)
      modifies `rows
      ensures rows == if id in old(rows) && old(rows)[id].storageKey == expected
        then old(rows)[id := old(rows)[id].(watermarked := Some(copy))] else old(rows)
    {
      if id in rows && rows[id].storageKey == expected {
        rows := rows[id := rows[id].(watermarked := Some(copy))];
      }
    }

    /**
     Serves the cached copy, or renders, stores and records one. `document` is
     a row read earlier, possibly replaced since; what is served derives from
     its file exactly when its copy was not made from another file, is
     watermarked unless rendering fails, and every table invariant survives.
     */
    method WatermarkedBrochureBytes(id: BrochureId, document: Document, renderFails: bool, storeFails: bool,
                                    recordFails: bool)
      returns (bytes: Option<File>)
      requires Sound(Tables()) && KeysKnown(Tables(), document)
      modifies `rows, `blobs
      ensures Sound(Tables()) && (old(Inv(Tables())) ==> Inv(Tables()))
      ensures bytes.Some? ==> (Derived(Tables(), document, bytes.value) <==> !CopiesOther(Tables(), document))
      ensures bytes.None? <==>
        (if document.watermarked.Some? then document.watermarked.value else document.storageKey) !in old(blobs)
      ensures bytes.Some? && document.watermarked.Some? ==> bytes.value == old(blobs)[document.watermarked.value]
      ensures bytes.Some? && document.watermarked.None? ==>
        bytes.value == if renderFails then old(blobs)[document.storageKey]
                       else Watermarked(old(blobs)[document.storageKey])
      ensures blobs ==
        if bytes.Some? && document.watermarked.None? && !renderFails && !storeFails
        then old(blobs)[document.storageKey + ".watermarked.pdf" := bytes.value] else old(blobs)
      ensures bytes.Some? && document.watermarked.None? && !renderFails && !storeFails && !recordFails
              && id in old(rows) && old(rows)[id].storageKey == document.storageKey ==>
                id in rows && rows[id].watermarked == Some(document.storageKey + SUFFIX)
                  && rows[id].watermarked.value in blobs
    {
      FetchedIsDerived(Tables(), document);
      var key := if document.watermarked.Some? then document.watermarked.value else document.storageKey;
      if key !in blobs {
        return None;
      }
      var data := blobs[key];
      if document.watermarked.Some? {
        return Some(data);
      }
      if renderFails {
        return Some(data);
      }
      var copy := document.storageKey + SUFFIX;
      if storeFails {
        return Some(Watermarked(data));
      }
      StoredCopyKeeps(Tables(), document.storageKey);
      blobs := blobs[copy := Watermarked(data)];
      if !recordFails {
        if id in rows && rows[id].storageKey == document.storageKey {
          RecordedKeyKeeps(Tables(), id, document.storageKey);
        }
        SetBrochureWatermarkedKey(id, document.storageKey, copy);
      }
      return Some(Watermarked(data));
    }
  }
}
