/** The Bitcask engine of main.py:40-125: a directory of append-only segments,
    the id of the active segment, and an in-memory index from key to the
    location of the key's latest record. */
module Engine {
  import opened Codec
  import opened Log
  import opened Segments
  import Naming

  /** The active segment is sealed once its size exceeds this many bytes. */
  const SEGMENT_SIZE_LIMIT: nat := 1024

  /** One more than the largest existing segment id, or 1 when there is none. */
  method NextSegmentId(ids: set<nat>) returns (next: nat)
    ensures forall j :: j in ids ==> j < next
    ensures next == 1 || next - 1 in ids
  {
    var top := 0;
    var rest := ids;
    while rest != {}
      invariant rest <= ids
      invariant forall j :: j in ids && j !in rest ==> j <= top
      invariant top == 0 || top in ids
      decreases rest
    {
      var j :| j in rest;
      if j > top {
        top := j;
      }
      rest := rest - {j};
    }
    next := top + 1;
  }

  ghost predicate Ascending(q: seq<nat>)
  {
    forall a, b :: 0 <= a < b < |q| ==> q[a] < q[b]
  }

  /** The bookkeeping of one turn of a scan over ascending ids: the next
      id exists, is above every id done so far, and joins them. */
  lemma NextId(ids: seq<nat>, files: map<nat, Bytes>, i: nat, done: set<nat>)
    requires Ascending(ids) && (forall j :: j in ids <==> j in files) && i < |ids|
    requires forall j :: j in done <==> j in ids[..i]
    ensures ids[i] in files && forall j :: j in done ==> j < ids[i]
    ensures forall j :: j in done + {ids[i]} <==> j in ids[..i + 1]
  {
    assert ids[..i + 1] == ids[..i] + [ids[i]];
    forall j | j in done ensures j < ids[i] {
      var a :| 0 <= a < i && ids[a] == j;
    }
  }

  /** A scan that has done every id of ids has replayed every segment. */
  lemma AllIds(ids: seq<nat>, files: map<nat, Bytes>, done: set<nat>)
    requires (forall j :: j in ids <==> j in files) && forall j :: j in done <==> j in ids[..|ids|]
    ensures Restrict(files, done) == files
  {
    assert ids[..|ids|] == ids;
  }

  /** The segment ids in ascending order: the order of the sorted file names. */
  method SortedIds(ids: set<nat>) returns (q: seq<nat>)
    ensures Ascending(q)
    ensures forall j :: j in q <==> j in ids
  {
    q := [];
    var rest := ids;
    while rest != {}
      invariant rest <= ids
      invariant forall j :: j in q <==> j in ids && j !in rest
      invariant Ascending(q)
      invariant forall a, j :: 0 <= a < |q| && j in rest ==> j < q[a]
      decreases rest
    {
      MaxExists(rest);
      var m :| m in rest && forall j :: j in rest ==> j <= m;
      q := [m] + q;
      rest := rest - {m};
    }
  }

  /** One segment's part of the index load: scan the records in file order;
      a record sets its key's location unless its value is the tombstone,
      which removes the key. */
  method ScanIndexSegment(index: map<Bytes, Loc>, id: nat, s: Bytes) returns (index': map<Bytes, Loc>)
    requires WellFormed(s)
    ensures index' == Apply(index, id, Entries(s), LocOf)
  {
    index' := index;
    var pos := 0;
    while pos < |s|
      invariant pos <= |s| && Parse(s, pos).Some?
      invariant Apply(index', id, Parse(s, pos).value, LocOf) == Apply(index, id, Entries(s), LocOf)
      decreases |s| - pos
    {
      ApplyFirst(index', id, s, pos, LocOf);
      var record := ReadAt(s, pos);
      var key, value := record.value.key, record.value.value;
      ghost var e, prev := Entry(key, value, pos), index';
      if value != TOMBSTONE {
        index' := index'[key := Loc(id, pos)];
      } else if key in index' {
        index' := index' - {key};
      } else {
        assert index' - {key} == index';
      }
      assert index' == Step(prev, id, e, LocOf);
      ghost var next := FrameEnd(s, pos);
      pos := pos + HEADER_SIZE + |key| + |value|;
      assert pos == next;
    }
  }

  /** The index load over the segments ids, which list every segment of
      files in ascending order. */
  method ScanIndex(index: map<Bytes, Loc>, files: map<nat, Bytes>, ids: seq<nat>) returns (index': map<Bytes, Loc>)
    requires AllWellFormed(files)
    requires Ascending(ids) && forall j :: j in ids <==> j in files
    ensures index' == Replay(index, files, LocOf)
  {
    index' := index;
    ghost var done: set<nat> := {};
    assert Restrict(files, done) == map[];
    for i := 0 to |ids|
      invariant forall j :: j in done <==> j in ids[..i]
      invariant index' == Replay(index, Restrict(files, done), LocOf)
    {
      var id := ids[i];
      NextId(ids, files, i, done);
      ghost var before := index';
      index' := ScanIndexSegment(index', id, files[id]);
      ReplayRestrictNext(index, files, done, id, before, index', LocOf);
      done := done + {id};
    }
    AllIds(ids, files, done);
  }

  /** One segment's part of the merge scan: a record sets its key's value
      unless the value is the tombstone, which removes the key. */
  method ScanValueSegment(merged: map<Bytes, Bytes>, id: nat, s: Bytes) returns (merged': map<Bytes, Bytes>)
    requires WellFormed(s)
    ensures merged' == Apply(merged, id, Entries(s), ValueOf)
  {
    merged' := merged;
    var pos := 0;
    while pos < |s|
      invariant pos <= |s| && Parse(s, pos).Some?
      invariant Apply(merged', id, Parse(s, pos).value, ValueOf) == Apply(merged, id, Entries(s), ValueOf)
      decreases |s| - pos
    {
      ApplyFirst(merged', id, s, pos, ValueOf);
      var record := ReadAt(s, pos);
      var key, value := record.value.key, record.value.value;
      ghost var e, prev := Entry(key, value, pos), merged';
      if value != TOMBSTONE {
        merged' := merged'[key := value];
      } else if key in merged' {
        merged' := merged' - {key};
      } else {
        assert merged' - {key} == merged';
      }
      assert merged' == Step(prev, id, e, ValueOf);
      ghost var next := FrameEnd(s, pos);
      pos := pos + HEADER_SIZE + |key| + |value|;
      assert pos == next;
    }
  }

  /** The merge scan: the live key-to-value map of the whole directory. */
  method ScanValues(files: map<nat, Bytes>, ids: seq<nat>) returns (merged: map<Bytes, Bytes>)
    requires AllWellFormed(files)
    requires Ascending(ids) && forall j :: j in ids <==> j in files
    ensures merged == LiveOf(files)
  {
    merged := map[];
    ghost var done: set<nat> := {};
    assert Restrict(files, done) == map[];
    for i := 0 to |ids|
      invariant forall j :: j in done <==> j in ids[..i]
      invariant merged == Replay(map[], Restrict(files, done), ValueOf)
    {
      var id := ids[i];
      NextId(ids, files, i, done);
      ghost var before := merged;
      merged := ScanValueSegment(merged, id, files[id]);
      ReplayRestrictNext(map[], files, done, id, before, merged, ValueOf);
      done := done + {id};
    }
    AllIds(ids, files, done);
  }

  /** What opening guarantees about a directory that gains an empty
      segment with an id above all others. */
  lemma OpenFacts(files: map<nat, Bytes>, next: nat)
    requires AllWellFormed(files) && forall j :: j in files ==> j < next
    ensures var files' := files[next := []];
      && AllWellFormed(files')
      && Points(IndexOf(files'), files')
      && Visible(IndexOf(files'), files') == LiveOf(files)
  {
    var files' := files[next := []];
    CreateSegment(map[], files, next);
    ReplayNewEmpty(map[], files, next, ValueOf);
    FreshIndexShowsLive(files');
  }

  lemma ExtendsTrans(files1: map<nat, Bytes>, files2: map<nat, Bytes>, files3: map<nat, Bytes>)
    requires Extends(files1, files2) && Extends(files2, files3)
    ensures Extends(files1, files3)
  {
  }

  /** The engine's invariant over the directory, the index and the active
      id: the active segment is the one with the largest id, every segment
      is whole records, and every index entry addresses a record of its key. */
  ghost predicate Inv(files: map<nat, Bytes>, index: map<Bytes, Loc>, id: nat)
  {
    && id in files
    && (forall j :: j in files ==> j <= id)
    && AllWellFormed(files)
    && Points(index, files)
  }

  /** The rotation step of put: a new empty segment with the next id becomes
      the newest; nothing visible changes. */
  lemma RotateFacts(files: map<nat, Bytes>, index: map<Bytes, Loc>, id: nat, files': map<nat, Bytes>)
    requires Inv(files, index, id)
    requires files' == files[id + 1 := []]
    ensures Inv(files', index, id + 1) && Extends(files, files')
    ensures Visible(index, files') == Visible(index, files)
    ensures IndexOf(files') == IndexOf(files)
  {
    CreateSegment(index, files, id + 1);
  }

  /** The append step of put: the record goes at the end of the newest
      segment and the key is pointed at it, so the key now shows value; a
      fresh index stays fresh unless value is the tombstone. */
  lemma AppendFacts(files: map<nat, Bytes>, index: map<Bytes, Loc>, id: nat, key: Bytes, value: Bytes,
                    files': map<nat, Bytes>, index': map<Bytes, Loc>)
    requires Inv(files, index, id) && Encodable(key, value)
    requires files' == files[id := files[id] + EncodeRecord(key, value)]
    requires index' == index[key := Loc(id, |files[id]|)]
    ensures Inv(files', index', id) && Extends(files, files')
    ensures Visible(index', files') == Visible(index, files)[key := value]
    ensures index == IndexOf(files) && value != TOMBSTONE ==> index' == IndexOf(files')
  {
    AppendRecord(index, files, id, key, value);
    VisibleSet(index, files', key, Loc(id, |files[id]|));
  }

  lemma UpdateTwice(files0: map<nat, Bytes>, files1: map<nat, Bytes>, files2: map<nat, Bytes>, id: nat)
    requires id in files1 && files1 == files0[id := files1[id]]
    requires id in files2 && files2 == files1[id := files2[id]]
    ensures files2 == files0[id := files2[id]]
  {
  }

  /** es holds exactly one entry for each key of live, with its live value. */
  ghost predicate Compacted(es: seq<Entry>, live: map<Bytes, Bytes>)
  {
    && (forall i :: 0 <= i < |es| ==> es[i].key in live && es[i].value == live[es[i].key])
    && (forall i, j :: 0 <= i < j < |es| ==> es[i].key != es[j].key)
    && (forall k :: k in live ==> exists i :: 0 <= i < |es| && es[i].key == k)
  }

  /** A compacted run of a tombstone-free live map holds no tombstone. */
  lemma CompactedNoTombstone(es: seq<Entry>, live: map<Bytes, Bytes>)
    requires Compacted(es, live) && forall k :: k in live ==> live[k] != TOMBSTONE
    ensures forall e :: e in es ==> e.value != TOMBSTONE
  {
    forall e | e in es ensures e.value != TOMBSTONE {
      var i :| 0 <= i < |es| && es[i] == e;
    }
  }

  /** The merge write so far: written holds one entry for each key of
      merged that is no longer in remaining, with its merged value, and no
      key twice; replaying it gives merged on exactly those keys. */
  ghost predicate Written(merged: map<Bytes, Bytes>, remaining: set<Bytes>, id: nat, written: seq<Entry>)
  {
    && (forall i :: 0 <= i < |written| ==>
         written[i].key in merged && written[i].key !in remaining && written[i].value == merged[written[i].key])
    && (forall i, j :: 0 <= i < j < |written| ==> written[i].key != written[j].key)
    && (forall k :: k in merged && k !in remaining ==> exists i :: 0 <= i < |written| && written[i].key == k)
    && Apply(map[], id, written, ValueOf) == map k | k in merged && k !in remaining :: merged[k]
  }

  /** Writing the next remaining key extends the replayed merged map by that key. */
  lemma WrittenReplay(merged: map<Bytes, Bytes>, remaining: set<Bytes>, id: nat, written: seq<Entry>, key: Bytes, offset: nat)
    requires Apply(map[], id, written, ValueOf) == map k | k in merged && k !in remaining :: merged[k]
    requires key in remaining && key in merged && merged[key] != TOMBSTONE
    ensures Apply(map[], id, written + [Entry(key, merged[key], offset)], ValueOf)
         == map k | k in merged && k !in remaining - {key} :: merged[k]
  {
    ApplyConcat(map[], id, written, [Entry(key, merged[key], offset)], ValueOf);
    assert (map k | k in merged && k !in remaining - {key} :: merged[k])
        == (map k | k in merged && k !in remaining :: merged[k])[key := merged[key]];
  }

  /** Writing the next remaining key keeps Written and adds one index entry. */
  lemma WrittenStep(merged: map<Bytes, Bytes>, remaining: set<Bytes>, id: nat, written: seq<Entry>, key: Bytes, offset: nat)
    requires Written(merged, remaining, id, written) && key in remaining && key in merged
    requires merged[key] != TOMBSTONE
    ensures var e := Entry(key, merged[key], offset);
      && Written(merged, remaining - {key}, id, written + [e])
      && Apply(map[], id, written + [e], LocOf) == Apply(map[], id, written, LocOf)[key := Loc(id, offset)]
  {
    var e := Entry(key, merged[key], offset);
    var w := written + [e];
    var rest := remaining - {key};
    ApplyConcat(map[], id, written, [e], LocOf);
    WrittenReplay(merged, remaining, id, written, key, offset);
    forall i | 0 <= i < |w|
      ensures w[i].key in merged && w[i].key !in rest && w[i].value == merged[w[i].key]
    {
      if i < |written| {
        assert w[i] == written[i];
      }
    }
    forall i, j | 0 <= i < j < |w|
      ensures w[i].key != w[j].key
    {
      assert w[i] == written[i];
      if j < |written| {
        assert w[j] == written[j];
      }
    }
    forall k | k in merged && k !in rest
      ensures exists i :: 0 <= i < |w| && w[i].key == k
    {
      if k == key {
        assert w[|written|].key == k;
      } else {
        var i :| 0 <= i < |written| && written[i].key == k;
        assert w[i].key == k;
      }
    }
  }

  /** Removing every old segment leaves only the new one. */
  lemma DropOld(files: map<nat, Bytes>, id: nat, bytes: Bytes, ids: seq<nat>)
    requires forall j :: j in files ==> j < id
    requires forall j :: j in ids <==> j in files
    ensures files[id := bytes] - (set j | j in ids) == map[id := bytes]
  {
    assert (set j | j in ids) == files.Keys;
  }

  /** The outcome of the merge on values: a directory of the one segment
      bytes, written from the live map of files with index built alongside,
      satisfies Inv, is indexed freshly by index and has the live map of files. */
  lemma MergeFacts(files: map<nat, Bytes>, id: nat, bytes: Bytes, index: map<Bytes, Loc>)
    requires AllWellFormed(files) && WellFormed(bytes)
    requires index == Apply(map[], id, Entries(bytes), LocOf)
    requires Apply(map[], id, Entries(bytes), ValueOf) == LiveOf(files)
    ensures var files' := map[id := bytes];
      && Inv(files', index, id) && index == IndexOf(files')
      && LiveOf(files') == LiveOf(files)
      && Visible(index, files') == LiveOf(files)
      && Points(IndexOf(files), files) && Visible(IndexOf(files), files) == LiveOf(files)
  {
    var files' := map[id := bytes];
    SingleSegmentReplay(map[], id, bytes, LocOf);
    SingleSegmentReplay(map[], id, bytes, ValueOf);
    FreshIndexShowsLive(files');
    FreshIndexShowsLive(files);
  }

  /** The whole of put on values: rotate when asked, then, when the lengths
      fit (ok), append the record to the newest segment and point key at it. */
  lemma PutFacts(files: map<nat, Bytes>, index: map<Bytes, Loc>, id: nat, rotate: bool, key: Bytes, value: Bytes, ok: bool,
                 files': map<nat, Bytes>, index': map<Bytes, Loc>, id': nat)
    requires Inv(files, index, id)
    requires id' == if rotate then id + 1 else id
    requires ok <==> Encodable(key, value)
    requires var base := if rotate then [] else files[id];
      && files' == files[id' := if ok then base + EncodeRecord(key, value) else base]
      && index' == if ok then index[key := Loc(id', |base|)] else index
    ensures Inv(files', index', id') && Extends(files, files')
    ensures Visible(index', files') == if ok then Visible(index, files)[key := value] else Visible(index, files)
    ensures index == IndexOf(files) && (!ok || value != TOMBSTONE) ==> index' == IndexOf(files')
  {
    var files1 := if rotate then files[id + 1 := []] else files;
    if rotate {
      RotateFacts(files, index, id, files1);
    }
    if ok {
      assert files' == files1[id' := files1[id'] + EncodeRecord(key, value)];
      AppendFacts(files1, index, id', key, value, files', index');
      ExtendsTrans(files, files1, files');
    } else {
      assert files' == files1;
    }
  }

  /** delete on values: when key is indexed, a tombstone for it is appended
      to the newest segment and key leaves the index, which hides exactly
      key and keeps a fresh index fresh. */
  lemma DeleteFacts(files: map<nat, Bytes>, index: map<Bytes, Loc>, id: nat, key: Bytes,
                    files': map<nat, Bytes>, index': map<Bytes, Loc>)
    requires Inv(files, index, id) && key in index
    requires files' == files[id := files[id] + EncodeRecord(key, TOMBSTONE)]
    requires index' == index - {key}
    ensures Inv(files', index', id)
    ensures Visible(index', files') == Visible(index, files) - {key}
    ensures index == IndexOf(files) ==> index' == IndexOf(files')
  {
    AppendRecord(index, files, id, key, TOMBSTONE);
    VisibleRemove(index, files', key);
  }

  class Bitcask {
    const dir: Directory
    var segmentId: nat
    var active: Segment
    var index: map<Bytes, Loc>

    /** The engine's invariant: the active handle is on this directory and
        on the newest segment, and Inv holds of the directory and index. */
    ghost predicate Valid()
      reads this, dir
    {
      && active.dir == dir && active.id == segmentId
      && Inv(dir.files, index, segmentId)
    }

    /** Index freshness: the index is exactly what replaying the log builds. */
    ghost predicate Fresh()
      reads this, dir
    {
      index == IndexOf(dir.files)
    }

    /** The key-to-value map that get reads through the index. */
    ghost function Contents(): map<Bytes, Bytes>
      reads this, dir
      requires Valid()
    {
      Visible(index, dir.files)
    }

    /** Open the store over an existing directory: the next id is one above
        every existing one, its empty segment becomes the active one, and the
        index is rebuilt from the log. */
    constructor (dir: Directory)
      requires AllWellFormed(dir.files)
      modifies dir
      ensures Valid() && Fresh() && this.dir == dir
      ensures forall id :: id in old(dir.files) ==> id < segmentId
      ensures segmentId == 1 || segmentId - 1 in old(dir.files)
      ensures dir.files == old(dir.files)[segmentId := []]
      ensures Contents() == LiveOf(old(dir.files))
    {
      ghost var files0 := dir.files;
      this.dir := dir;
      var next := NextSegmentId(dir.files.Keys);
      segmentId := next;
      var segment := new Segment(dir, next);
      ghost var files1 := dir.files;
      assert files1 == files0[next := []];
      active := segment;
      index := map[];
      new;
      OpenFacts(files0, next);
      LoadIndex();
      assert dir.files == files1 && index == IndexOf(files1);
    }

    /** Rebuild the index by replaying every segment in ascending id order. */
    method LoadIndex()
      requires AllWellFormed(dir.files)
      modifies this`index
      ensures index == Replay(old(index), dir.files, LocOf)
    {
      var ids := SortedIds(dir.files.Keys);
      index := ScanIndex(index, dir.files, ids);
    }

    /** Store value under key: first rotate to a fresh segment when the
        active one is over the limit, then append the record and point the
        key at it. */
    method Put(key: Bytes, value: Bytes) returns (r: Result<()>)
      requires Valid()
      modifies this, dir
      ensures Valid()
      ensures segmentId == if old(|dir.files[segmentId]|) > SEGMENT_SIZE_LIMIT then old(segmentId) + 1 else old(segmentId)
      ensures r.Ok? <==> Encodable(key, value)
      ensures r.Err? ==> r.error == LengthOutOfRange
      ensures var base := if segmentId == old(segmentId) then old(dir.files[segmentId]) else [];
        && dir.files == old(dir.files)[segmentId := if r.Ok? then base + EncodeRecord(key, value) else base]
        && index == if r.Ok? then old(index)[key := Loc(segmentId, |base|)] else old(index)
      ensures Extends(old(dir.files), dir.files)
      ensures Contents() == if r.Ok? then old(Contents())[key := value] else old(Contents())
      ensures old(Fresh()) && (r.Err? || value != TOMBSTONE) ==> Fresh()
    {
      ghost var files0, index0, id0 := dir.files, index, segmentId;
      var size := active.Size();
      if size > SEGMENT_SIZE_LIMIT {
        segmentId := segmentId + 1;
        active := new Segment(dir, segmentId);
      }
      var w := active.Write(key, value);
      if w.Ok? {
        index := index[key := Loc(segmentId, w.value)];
        r := Ok(());
      } else {
        r := Err(w.error);
      }
      PutFacts(files0, index0, id0, size > SEGMENT_SIZE_LIMIT, key, value, r.Ok?, dir.files, index, segmentId);
    }

    /** The value stored under key, read from the segment the index points at. */
    method Get(key: Bytes) returns (r: Option<Bytes>)
      requires Valid()
      modifies dir
      ensures Valid() && dir.files == old(dir.files)
      ensures r == if key in Contents() then Some(Contents()[key]) else None
      ensures Fresh() ==> r == if key in LiveOf(dir.files) then Some(LiveOf(dir.files)[key]) else None
    {
      if key !in index {
        r := None;
      } else {
        var loc := index[key];
        var segment := new Segment(dir, loc.segment);
        var record := segment.ReadAt(loc.offset);
        r := Some(record.value.value);
      }
      FreshIndexShowsLive(dir.files);
    }

    /** Delete key: when it is indexed, append a tombstone for it to the
        active segment and drop it from the index; otherwise do nothing. */
    method Delete(key: Bytes)
      requires Valid()
      modifies this`index, dir
      ensures Valid()
      ensures key in old(index) ==>
        && Encodable(key, TOMBSTONE)
        && dir.files == old(dir.files)[segmentId := old(dir.files[segmentId]) + EncodeRecord(key, TOMBSTONE)]
        && index == old(index) - {key}
      ensures key !in old(index) ==> dir.files == old(dir.files) && index == old(index)
      ensures Contents() == old(Contents()) - {key}
      ensures old(Fresh()) ==> Fresh()
    {
      if key in index {
        ghost var files0, index0 := dir.files, index;
        assert Encodable(key, TOMBSTONE);
        var _ := active.Write(key, TOMBSTONE);
        index := index - {key};
        DeleteFacts(files0, index0, segmentId, key, dir.files, index);
      } else {
        assert Contents() - {key} == Contents();
      }
    }

    /** Write every live pair, in any order, into the fresh segment seg and
        index each one at the offset it was written to. */
    method WriteMerged(seg: Segment, merged: map<Bytes, Bytes>)
      requires seg.dir == dir && seg.id in dir.files && dir.files[seg.id] == [] && index == map[]
      requires forall k :: k in merged ==> merged[k] != TOMBSTONE && Encodable(k, merged[k])
      modifies this`index, dir
      ensures seg.id in dir.files && dir.files == old(dir.files)[seg.id := dir.files[seg.id]]
      ensures WellFormed(dir.files[seg.id])
      ensures var es := Entries(dir.files[seg.id]);
        && Compacted(es, merged)
        && index == Apply(map[], seg.id, es, LocOf)
        && Apply(map[], seg.id, es, ValueOf) == merged
    {
      var remaining := merged.Keys;
      ghost var written: seq<Entry> := [];
      EmptyEntries();
      assert (map k | k in merged && k !in remaining :: merged[k]) == map[];
      while remaining != {}
        invariant remaining <= merged.Keys
        invariant seg.id in dir.files && dir.files == old(dir.files)[seg.id := dir.files[seg.id]]
        invariant WellFormed(dir.files[seg.id]) && Entries(dir.files[seg.id]) == written
        invariant Written(merged, remaining, seg.id, written)
        invariant index == Apply(map[], seg.id, written, LocOf)
        decreases remaining
      {
        var key :| key in remaining;
        ghost var prev, s := dir.files, dir.files[seg.id];
        var w := seg.Write(key, merged[key]);
        UpdateTwice(old(dir.files), prev, dir.files, seg.id);
        EntriesAppend(s, key, merged[key]);
        WrittenStep(merged, remaining, seg.id, written, key, w.value);
        index := index[key := Loc(seg.id, w.value)];
        written := written + [Entry(key, merged[key], w.value)];
        remaining := remaining - {key};
      }
      assert (map k | k in merged && k !in remaining :: merged[k]) == merged;
    }

    /** Delete the segment files ids from the directory. */
    method RemoveSegments(ids: seq<nat>)
      modifies dir
      ensures dir.files == old(dir.files) - set j | j in ids
    {
      ghost var removed: set<nat> := {};
      for i := 0 to |ids|
        invariant removed == set j | j in ids[..i]
        invariant dir.files == old(dir.files) - removed
      {
        dir.files := dir.files - {ids[i]};
        assert old(dir.files) - (removed + {ids[i]}) == old(dir.files) - removed - {ids[i]};
        removed := removed + {ids[i]};
        assert ids[..i + 1] == ids[..i] + [ids[i]];
      }
      assert ids[..|ids|] == ids;
    }

    /** Compact the log: collect the live pairs, write them into one fresh
        segment with the next id, rebuild the index over it and remove every
        segment that existed before. */
    method MergeSegments()
      requires Valid()
      modifies this, dir
      ensures Valid() && Fresh()
      ensures segmentId == old(segmentId) + 1
      ensures dir.files.Keys == {segmentId}
      ensures forall k :: k in index ==> index[k].segment == segmentId
      ensures LiveOf(dir.files) == LiveOf(old(dir.files))
      ensures old(Fresh()) ==> Contents() == old(Contents())
      ensures Compacted(Entries(dir.files[segmentId]), LiveOf(old(dir.files)))
      ensures forall e :: e in Entries(dir.files[segmentId]) ==> e.value != TOMBSTONE
    {
      var files := dir.files;
      assert forall j :: j in files ==> j < segmentId + 1;
      var ids := SortedIds(files.Keys);
      var merged := ScanValues(files, ids);
      LiveNoTombstone(files);
      LiveEncodable(files);

      segmentId := segmentId + 1;
      var seg := new Segment(dir, segmentId);
      ghost var files1 := dir.files;
      assert files1 == files[segmentId := []];
      index := map[];
      WriteMerged(seg, merged);
      ghost var bytes := dir.files[segmentId];
      UpdateTwice(files, files1, dir.files, segmentId);
      DropOld(files, segmentId, bytes, ids);
      RemoveSegments(ids);
      assert dir.files == map[segmentId := bytes];
      active := seg;
      MergeFacts(files, segmentId, bytes, index);
      CompactedNoTombstone(Entries(bytes), merged);
    }
  }

  // ---------------------------------------------------------------------
  // The scan in the order of the sorted file names (main.py:54, main.py:98).
  // ---------------------------------------------------------------------

  /** Replay the segments in the order listed, the first applied first: the
      scan as main.py runs it over its list of file names. */
  function ReplayInOrder<V>(m: map<Bytes, V>, files: map<nat, Bytes>, order: seq<nat>, mk: (nat, Entry) -> V): map<Bytes, V>
    requires forall i :: 0 <= i < |order| ==> order[i] in files
    decreases |order|
  {
    if order == [] then m
    else ReplayInOrder(Apply(m, order[0], Entries(files[order[0]]), mk), files, order[1..], mk)
  }

  /** The frame of one record is a segment of exactly that record. */
  lemma SingleRecord(key: Bytes, value: Bytes)
    requires Encodable(key, value)
    ensures Entries(EncodeRecord(key, value)) == [Entry(key, value, 0)]
  {
    ParseSingle([], key, value);
    assert [] + EncodeRecord(key, value) == EncodeRecord(key, value);
  }

  lemma ApplySingle<V>(m: map<Bytes, V>, id: nat, e: Entry, mk: (nat, Entry) -> V)
    ensures Apply(m, id, [e], mk) == Step(m, id, e, mk)
  {
    assert [e][1..] == [];
  }

  /** The directory of the example below: segments 999999 and 1000000, each
      holding one record of key. */
  function TwoSegments(key: Bytes, older: Bytes, newer: Bytes): map<nat, Bytes>
    requires Encodable(key, older) && Encodable(key, newer)
  {
    map[999_999 := EncodeRecord(key, older), 1_000_000 := EncodeRecord(key, newer)]
  }

  /** Scanned in the order of the sorted names, 1000000 before 999999, the
      key ends with what the older segment's record makes: its location for
      the index load, its value for the merge scan. */
  lemma NameOrderScan<V>(key: Bytes, older: Bytes, newer: Bytes, mk: (nat, Entry) -> V)
    requires Encodable(key, older) && Encodable(key, newer) && older != TOMBSTONE
    ensures ReplayInOrder(map[], TwoSegments(key, older, newer), [1_000_000, 999_999], mk)
      == map[key := mk(999_999, Entry(key, older, 0))]
  {
    var files := TwoSegments(key, older, newer);
    SingleRecord(key, older);
    SingleRecord(key, newer);
    var order: seq<nat> := [1_000_000, 999_999];
    assert order[1..] == [999_999] && order[1..][1..] == [];
    var first := Apply(map[], 1_000_000, Entries(files[1_000_000]), mk);
    ApplySingle(map[], 1_000_000, Entry(key, newer, 0), mk);
    assert first.Keys <= {key};
    var second := Apply(first, 999_999, Entries(files[999_999]), mk);
    ApplySingle(first, 999_999, Entry(key, older, 0), mk);
    assert second == map[key := mk(999_999, Entry(key, older, 0))];
    assert ReplayInOrder(map[], files, order, mk) == ReplayInOrder(first, files, [999_999], mk);
    assert ReplayInOrder(first, files, [999_999], mk) == ReplayInOrder(second, files, [], mk);
  }

  /** Replayed in id order, the key ends with what the newer segment's
      record makes. */
  lemma IdOrderReplay<V>(key: Bytes, older: Bytes, newer: Bytes, mk: (nat, Entry) -> V)
    requires Encodable(key, older) && Encodable(key, newer) && newer != TOMBSTONE
    ensures Replay(map[], TwoSegments(key, older, newer), mk) == map[key := mk(1_000_000, Entry(key, newer, 0))]
  {
    var files := TwoSegments(key, older, newer);
    SingleRecord(key, older);
    SingleRecord(key, newer);
    ReplayTop(map[], files, 1_000_000, mk);
    assert files - {1_000_000} == map[999_999 := EncodeRecord(key, older)];
    SingleSegmentReplay(map[], 999_999, EncodeRecord(key, older), mk);
    ApplySingle(map[], 999_999, Entry(key, older, 0), mk);
    var before := Replay(map[], files - {1_000_000}, mk);
    assert before.Keys <= {key};
    ApplySingle(before, 1_000_000, Entry(key, newer, 0), mk);
  }

  /** Segments 999999 and 1000000 both write key. The sorted names list
      1000000 first, so the index load in name order points the key at the
      older record, and the merge scan in name order keeps the older value.
      The replay in id order points at the newer record and keeps the newer
      value. */
  lemma NameOrderReplayKeepsOlder(key: Bytes, older: Bytes, newer: Bytes)
    requires Encodable(key, older) && Encodable(key, newer)
    requires older != TOMBSTONE && newer != TOMBSTONE
    ensures Naming.LexLess(Naming.FileName(1_000_000), Naming.FileName(999_999))
    ensures ReplayInOrder(map[], TwoSegments(key, older, newer), [1_000_000, 999_999], LocOf) == map[key := Loc(999_999, 0)]
    ensures IndexOf(TwoSegments(key, older, newer)) == map[key := Loc(1_000_000, 0)]
    ensures ReplayInOrder(map[], TwoSegments(key, older, newer), [1_000_000, 999_999], ValueOf) == map[key := older]
    ensures LiveOf(TwoSegments(key, older, newer)) == map[key := newer]
  {
    Naming.NameOrderBreaksAtMillion();
    NameOrderScan(key, older, newer, LocOf);
    NameOrderScan(key, older, newer, ValueOf);
    IdOrderReplay(key, older, newer, LocOf);
    IdOrderReplay(key, older, newer, ValueOf);
  }

  /** A put whose lengths fit, followed by a get of the same key, returns the value put. */
  method PutThenGet(store: Bitcask, key: Bytes, value: Bytes) returns (r: Option<Bytes>)
    requires store.Valid() && Encodable(key, value)
    modifies store, store.dir
    ensures r == Some(value)
  {
    var _ := store.Put(key, value);
    r := store.Get(key);
  }
}
