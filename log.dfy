/** The log view of the store: a segment's bytes as a sequence of entries, and
    the replay that turns all segments, in ascending id order, into the index
    (key to location) or into the live key-to-value map (main.py:53-67,
    main.py:96-109). */
module Log {
  import opened Codec

  /** A record together with the offset of its header in its segment. */
  datatype Entry = Entry(key: Bytes, value: Bytes, offset: nat)

  /** An index entry: the segment id and the offset of the record's header. */
  datatype Loc = Loc(segment: nat, offset: nat)

  /** The record sequence that starts at pos, when the bytes from pos on are
      a whole number of records; None when a header or a body is cut short. */
  function Parse(s: Bytes, pos: nat): Option<seq<Entry>>
    requires pos <= |s|
    decreases |s| - pos
  {
    if pos == |s| then Some([])
    else if !Fits(s, pos) then None
    else
      var rest := Parse(s, FrameEnd(s, pos));
      if rest.None? then None
      else
        var r := RecordAt(s, pos);
        Some([Entry(r.key, r.value, pos)] + rest.value)
  }

  /** A segment made of whole records only. */
  predicate WellFormed(s: Bytes)
  {
    Parse(s, 0).Some?
  }

  function Entries(s: Bytes): seq<Entry>
  {
    if WellFormed(s) then Parse(s, 0).value else []
  }

  /** Every segment of the directory is well formed. */
  predicate AllWellFormed(files: map<nat, Bytes>)
  {
    forall id :: id in files ==> WellFormed(files[id])
  }

  lemma EmptyEntries()
    ensures WellFormed([]) && Entries([]) == []
  {
  }

  /** The frame of one record parses back as exactly that record. */
  lemma ParseSingle(s: Bytes, key: Bytes, value: Bytes)
    requires Encodable(key, value)
    ensures Parse(s + EncodeRecord(key, value), |s|) == Some([Entry(key, value, |s|)])
  {
    var s' := s + EncodeRecord(key, value);
    assert Fits(s', |s|) && FrameEnd(s', |s|) == |s'| && RecordAt(s', |s|) == Record(key, value) by {
      RoundTrip(s, key, value, []);
      assert s + EncodeRecord(key, value) + [] == s';
    }
    assert Parse(s', |s'|) == Some([]);
    var single: seq<Entry> := [Entry(key, value, |s|)];
    assert single + [] == single;
  }

  /** Appending one framed record to a well-formed run of records appends
      exactly one entry, whose offset is the old length. */
  lemma {:induction false} ParseAppend(s: Bytes, pos: nat, key: Bytes, value: Bytes)
    requires pos <= |s| && Parse(s, pos).Some? && Encodable(key, value)
    ensures Parse(s + EncodeRecord(key, value), pos) == Some(Parse(s, pos).value + [Entry(key, value, |s|)])
    decreases |s| - pos
  {
    var r := EncodeRecord(key, value);
    if pos == |s| {
      ParseSingle(s, key, value);
      assert [] + [Entry(key, value, |s|)] == [Entry(key, value, |s|)];
    } else {
      FitsExtend(s, pos, r);
      ParseAppend(s, FrameEnd(s, pos), key, value);
      var e := RecordAt(s, pos);
      var rest := Parse(s, FrameEnd(s, pos)).value;
      assert [Entry(e.key, e.value, pos)] + (rest + [Entry(key, value, |s|)])
          == ([Entry(e.key, e.value, pos)] + rest) + [Entry(key, value, |s|)];
    }
  }

  lemma EntriesAppend(s: Bytes, key: Bytes, value: Bytes)
    requires WellFormed(s) && Encodable(key, value)
    ensures WellFormed(s + EncodeRecord(key, value))
    ensures Entries(s + EncodeRecord(key, value)) == Entries(s) + [Entry(key, value, |s|)]
  {
    ParseAppend(s, 0, key, value);
  }

  /** Every parsed entry is the record that lies at its offset. */
  lemma {:induction false} ParsedEntriesFit(s: Bytes, pos: nat)
    requires pos <= |s| && Parse(s, pos).Some?
    ensures forall e :: e in Parse(s, pos).value ==>
      Fits(s, e.offset) && RecordAt(s, e.offset) == Record(e.key, e.value)
    decreases |s| - pos
  {
    if pos < |s| {
      ParsedEntriesFit(s, FrameEnd(s, pos));
    }
  }

  lemma EntriesFit(s: Bytes)
    ensures forall e :: e in Entries(s) ==>
      Fits(s, e.offset) && RecordAt(s, e.offset) == Record(e.key, e.value)
  {
    if WellFormed(s) {
      ParsedEntriesFit(s, 0);
    }
  }

  // ---------------------------------------------------------------------
  // Replay: one pass over the records, later ones overriding earlier ones.
  // ---------------------------------------------------------------------

  /** Apply one record: a non-tombstone value sets the key to what mk makes of
      the record; a tombstone removes the key if present. */
  function Step<V>(m: map<Bytes, V>, id: nat, e: Entry, mk: (nat, Entry) -> V): map<Bytes, V>
  {
    if e.value != TOMBSTONE then m[e.key := mk(id, e)] else m - {e.key}
  }

  /** Apply the records es of segment id, in file order. */
  function Apply<V>(m: map<Bytes, V>, id: nat, es: seq<Entry>, mk: (nat, Entry) -> V): map<Bytes, V>
    decreases |es|
  {
    if es == [] then m else Apply(Step(m, id, es[0], mk), id, es[1..], mk)
  }

  /** What the index stores for a record. */
  function LocOf(id: nat, e: Entry): Loc { Loc(id, e.offset) }

  /** What the merged map stores for a record. */
  function ValueOf(id: nat, e: Entry): Bytes { e.value }

  lemma MaxExists(ids: set<nat>)
    requires ids != {}
    ensures exists m :: m in ids && forall j :: j in ids ==> j <= m
  {
    var x :| x in ids;
    if ids != {x} {
      MaxExists(ids - {x});
      var m :| m in ids - {x} && forall j :: j in ids - {x} ==> j <= m;
      var top := if x > m then x else m;
      forall j | j in ids ensures j <= top {
        if j != x {
          assert j in ids - {x};
        }
      }
    }
  }

  ghost function MaxId(ids: set<nat>): (m: nat)
    requires ids != {}
    ensures m in ids && forall j :: j in ids ==> j <= m
  {
    MaxExists(ids);
    var m :| m in ids && forall j :: j in ids ==> j <= m; m
  }

  /** Replay every segment of files in ascending id order, starting from m0:
      the last segment is applied after all the others. */
  ghost function Replay<V>(m0: map<Bytes, V>, files: map<nat, Bytes>, mk: (nat, Entry) -> V): map<Bytes, V>
    decreases files.Keys
  {
    if files.Keys == {} then m0
    else
      var last := MaxId(files.Keys);
      assert (files - {last}).Keys < files.Keys;
      Apply(Replay(m0, files - {last}, mk), last, Entries(files[last]), mk)
  }

  /** The index that replaying the directory builds. */
  ghost function IndexOf(files: map<nat, Bytes>): map<Bytes, Loc>
  {
    Replay(map[], files, LocOf)
  }

  /** The live key-to-value map that replaying the directory builds. */
  ghost function LiveOf(files: map<nat, Bytes>): map<Bytes, Bytes>
  {
    Replay(map[], files, ValueOf)
  }

  /** The segments of files whose ids are in ids. */
  function Restrict(files: map<nat, Bytes>, ids: set<nat>): map<nat, Bytes>
  {
    map j | j in ids && j in files :: files[j]
  }

  /** Every index entry addresses a whole record of that key in an existing segment. */
  ghost predicate Points(index: map<Bytes, Loc>, files: map<nat, Bytes>)
  {
    forall k :: k in index ==>
      && index[k].segment in files
      && Fits(files[index[k].segment], index[k].offset)
      && RecordAt(files[index[k].segment], index[k].offset).key == k
  }

  /** What get returns for each indexed key: the value of the addressed record. */
  ghost function Visible(index: map<Bytes, Loc>, files: map<nat, Bytes>): map<Bytes, Bytes>
    requires Points(index, files)
  {
    map k | k in index :: RecordAt(files[index[k].segment], index[k].offset).value
  }

  /** files2 keeps every segment of files1 and only appends to it. */
  ghost predicate Extends(files1: map<nat, Bytes>, files2: map<nat, Bytes>)
  {
    forall id :: id in files1 ==> id in files2 && files1[id] <= files2[id]
  }

  // ---------------------------------------------------------------------
  // Lemmas about the replay.
  // ---------------------------------------------------------------------

  /** Replaying the records from pos on is one step for the record at pos,
      then the replay of the records after it. */
  lemma ApplyFirst<V>(m: map<Bytes, V>, id: nat, s: Bytes, pos: nat, mk: (nat, Entry) -> V)
    requires pos < |s| && Parse(s, pos).Some?
    ensures Fits(s, pos) && Parse(s, FrameEnd(s, pos)).Some?
    ensures var r := RecordAt(s, pos);
      Apply(m, id, Parse(s, pos).value, mk)
      == Apply(Step(m, id, Entry(r.key, r.value, pos), mk), id, Parse(s, FrameEnd(s, pos)).value, mk)
  {
    var r := RecordAt(s, pos);
    var es := Parse(s, pos).value;
    assert es == [Entry(r.key, r.value, pos)] + Parse(s, FrameEnd(s, pos)).value;
    assert es[1..] == Parse(s, FrameEnd(s, pos)).value;
  }

  lemma {:induction false} ApplyConcat<V>(m: map<Bytes, V>, id: nat, a: seq<Entry>, b: seq<Entry>, mk: (nat, Entry) -> V)
    ensures Apply(m, id, a + b, mk) == Apply(Apply(m, id, a, mk), id, b, mk)
    decreases |a|
  {
    if a == [] {
      assert a + b == b;
    } else {
      assert (a + b)[1..] == a[1..] + b;
      ApplyConcat(Step(m, id, a[0], mk), id, a[1..], b, mk);
    }
  }

  /** The replay applies the segment with the largest id last. */
  lemma ReplayTop<V>(m0: map<Bytes, V>, files: map<nat, Bytes>, top: nat, mk: (nat, Entry) -> V)
    requires top in files && forall j :: j in files ==> j <= top
    ensures Replay(m0, files, mk) == Apply(Replay(m0, files - {top}, mk), top, Entries(files[top]), mk)
  {
    assert MaxId(files.Keys) == top;
  }

  /** Replaying one more segment, larger than all replayed so far. */
  lemma ReplayRestrictNext<V>(m0: map<Bytes, V>, files: map<nat, Bytes>, done: set<nat>, next: nat,
                              before: map<Bytes, V>, after: map<Bytes, V>, mk: (nat, Entry) -> V)
    requires next in files && forall j :: j in done ==> j < next
    requires before == Replay(m0, Restrict(files, done), mk)
    requires after == Apply(before, next, Entries(files[next]), mk)
    ensures after == Replay(m0, Restrict(files, done + {next}), mk)
  {
    var bigger := Restrict(files, done + {next});
    ReplayTop(m0, bigger, next, mk);
    assert bigger - {next} == Restrict(files, done);
  }

  /** A new, empty segment with a larger id than all others changes no replay. */
  lemma ReplayNewEmpty<V>(m0: map<Bytes, V>, files: map<nat, Bytes>, id: nat, mk: (nat, Entry) -> V)
    requires forall j :: j in files ==> j < id
    ensures Replay(m0, files[id := []], mk) == Replay(m0, files, mk)
  {
    var files' := files[id := []];
    ReplayTop(m0, files', id, mk);
    assert files' - {id} == files;
    EmptyEntries();
  }

  /** Appending one record to the segment with the largest id replays as one more step. */
  lemma ReplayAppendTop<V>(m0: map<Bytes, V>, files: map<nat, Bytes>, id: nat, key: Bytes, value: Bytes, mk: (nat, Entry) -> V)
    requires id in files && forall j :: j in files ==> j <= id
    requires WellFormed(files[id]) && Encodable(key, value)
    ensures Replay(m0, files[id := files[id] + EncodeRecord(key, value)], mk)
         == Step(Replay(m0, files, mk), id, Entry(key, value, |files[id]|), mk)
  {
    var s := files[id];
    var files' := files[id := s + EncodeRecord(key, value)];
    var e := Entry(key, value, |s|);
    ReplayTop(m0, files', id, mk);
    ReplayTop(m0, files, id, mk);
    assert files' - {id} == files - {id};
    EntriesAppend(s, key, value);
    ApplyConcat(Replay(m0, files - {id}, mk), id, Entries(s), [e], mk);
    assert Apply(Step(Replay(m0, files, mk), id, e, mk), id, [], mk) == Step(Replay(m0, files, mk), id, e, mk);
  }

  /** Index and live values that describe the same records of files. */
  ghost predicate Agrees(index: map<Bytes, Loc>, vals: map<Bytes, Bytes>, files: map<nat, Bytes>)
  {
    && index.Keys == vals.Keys
    && forall k :: k in index ==>
      && index[k].segment in files
      && Fits(files[index[k].segment], index[k].offset)
      && RecordAt(files[index[k].segment], index[k].offset) == Record(k, vals[k])
  }

  lemma {:induction false} ApplyAgrees(index: map<Bytes, Loc>, vals: map<Bytes, Bytes>, files: map<nat, Bytes>, id: nat, es: seq<Entry>)
    requires Agrees(index, vals, files) && id in files
    requires forall e :: e in es ==> Fits(files[id], e.offset) && RecordAt(files[id], e.offset) == Record(e.key, e.value)
    ensures Agrees(Apply(index, id, es, LocOf), Apply(vals, id, es, ValueOf), files)
    decreases |es|
  {
    if es != [] {
      var e := es[0];
      var index', vals' := Step(index, id, e, LocOf), Step(vals, id, e, ValueOf);
      assert Agrees(index', vals', files);
      assert forall x :: x in es[1..] ==> x in es;
      ApplyAgrees(index', vals', files, id, es[1..]);
    }
  }

  lemma {:induction false} ReplayAgrees(files: map<nat, Bytes>, sub: map<nat, Bytes>)
    requires forall id :: id in sub ==> id in files && sub[id] == files[id]
    ensures Agrees(Replay(map[], sub, LocOf), Replay(map[], sub, ValueOf), files)
    decreases sub.Keys
  {
    if sub.Keys != {} {
      var top := MaxId(sub.Keys);
      ReplayTop(map[], sub, top, LocOf);
      ReplayTop(map[], sub, top, ValueOf);
      assert (sub - {top}).Keys < sub.Keys;
      ReplayAgrees(files, sub - {top});
      EntriesFit(files[top]);
      ApplyAgrees(Replay(map[], sub - {top}, LocOf), Replay(map[], sub - {top}, ValueOf), files, top, Entries(files[top]));
    }
  }

  /** Index freshness means what get sees is the live map: the replayed index
      addresses, for every live key, a record holding exactly its live value,
      and it holds no other key. */
  lemma FreshIndexShowsLive(files: map<nat, Bytes>)
    ensures Points(IndexOf(files), files)
    ensures Visible(IndexOf(files), files) == LiveOf(files)
  {
    ReplayAgrees(files, files);
  }

  /** Appending to segments or adding new ones changes nothing an index addresses. */
  lemma VisibleExtends(index: map<Bytes, Loc>, files1: map<nat, Bytes>, files2: map<nat, Bytes>)
    requires Points(index, files1) && Extends(files1, files2)
    ensures Points(index, files2)
    ensures Visible(index, files2) == Visible(index, files1)
  {
    forall k | k in index
      ensures Fits(files2[index[k].segment], index[k].offset)
      ensures RecordAt(files2[index[k].segment], index[k].offset) == RecordAt(files1[index[k].segment], index[k].offset)
    {
      FitsPrefix(files1[index[k].segment], index[k].offset, files2[index[k].segment]);
    }
  }

  /** The tombstone never reaches the live map. */
  lemma {:induction false} ApplyNoTombstone(vals: map<Bytes, Bytes>, id: nat, es: seq<Entry>)
    requires forall k :: k in vals ==> vals[k] != TOMBSTONE
    ensures forall k :: k in Apply(vals, id, es, ValueOf) ==> Apply(vals, id, es, ValueOf)[k] != TOMBSTONE
    decreases |es|
  {
    if es != [] {
      var vals' := Step(vals, id, es[0], ValueOf);
      assert es[0].value != TOMBSTONE ==> vals' == vals[es[0].key := es[0].value];
      ApplyNoTombstone(vals', id, es[1..]);
      assert Apply(vals, id, es, ValueOf) == Apply(vals', id, es[1..], ValueOf);
    }
  }

  lemma {:induction false} LiveNoTombstone(files: map<nat, Bytes>)
    ensures forall k :: k in LiveOf(files) ==> LiveOf(files)[k] != TOMBSTONE
    decreases files.Keys
  {
    if files.Keys != {} {
      var top := MaxId(files.Keys);
      ReplayTop(map[], files, top, ValueOf);
      assert (files - {top}).Keys < files.Keys;
      LiveNoTombstone(files - {top});
      ApplyNoTombstone(LiveOf(files - {top}), top, Entries(files[top]));
    }
  }

  /** Every live pair can be framed again (its lengths came out of a header). */
  lemma LiveEncodable(files: map<nat, Bytes>)
    ensures forall k :: k in LiveOf(files) ==> Encodable(k, LiveOf(files)[k])
  {
    ReplayAgrees(files, files);
  }

  // ---------------------------------------------------------------------
  // The directory and index transitions made by put, delete and merge.
  // ---------------------------------------------------------------------

  /** Appending one record to the newest segment: the directory stays well
      formed and only grows, what the old index addresses is unchanged, the
      new record lies at the old length, and the replayed index takes one
      more step. */
  lemma AppendRecord(index: map<Bytes, Loc>, files: map<nat, Bytes>, id: nat, key: Bytes, value: Bytes)
    requires AllWellFormed(files) && Points(index, files) && Encodable(key, value)
    requires id in files && forall j :: j in files ==> j <= id
    ensures var s := files[id];
      var files' := files[id := s + EncodeRecord(key, value)];
      && AllWellFormed(files') && Extends(files, files')
      && Points(index, files') && Visible(index, files') == Visible(index, files)
      && Fits(files'[id], |s|) && RecordAt(files'[id], |s|) == Record(key, value)
      && IndexOf(files') == Step(IndexOf(files), id, Entry(key, value, |s|), LocOf)
  {
    var s := files[id];
    var files' := files[id := s + EncodeRecord(key, value)];
    EntriesAppend(s, key, value);
    VisibleExtends(index, files, files');
    RoundTrip(s, key, value, []);
    assert s + EncodeRecord(key, value) + [] == files'[id];
    ReplayAppendTop(map[], files, id, key, value, LocOf);
  }

  /** Creating a new, empty segment with an id above all others. */
  lemma CreateSegment(index: map<Bytes, Loc>, files: map<nat, Bytes>, id: nat)
    requires AllWellFormed(files) && Points(index, files)
    requires forall j :: j in files ==> j < id
    ensures var files' := files[id := []];
      && AllWellFormed(files') && Extends(files, files')
      && Points(index, files') && Visible(index, files') == Visible(index, files)
      && IndexOf(files') == IndexOf(files)
  {
    EmptyEntries();
    VisibleExtends(index, files, files[id := []]);
    ReplayNewEmpty(map[], files, id, LocOf);
  }

  /** Pointing one key at a record of that key makes it show that record's value. */
  lemma VisibleSet(index: map<Bytes, Loc>, files: map<nat, Bytes>, key: Bytes, loc: Loc)
    requires Points(index, files)
    requires loc.segment in files && Fits(files[loc.segment], loc.offset)
    requires RecordAt(files[loc.segment], loc.offset).key == key
    ensures Points(index[key := loc], files)
    ensures Visible(index[key := loc], files) == Visible(index, files)[key := RecordAt(files[loc.segment], loc.offset).value]
  {
  }

  /** Dropping a key from the index hides exactly that key. */
  lemma VisibleRemove(index: map<Bytes, Loc>, files: map<nat, Bytes>, key: Bytes)
    requires Points(index, files)
    ensures Points(index - {key}, files)
    ensures Visible(index - {key}, files) == Visible(index, files) - {key}
  {
  }

  /** A directory of one segment replays as that segment's records. */
  lemma SingleSegmentReplay<V>(m0: map<Bytes, V>, id: nat, s: Bytes, mk: (nat, Entry) -> V)
    ensures Replay(m0, map[id := s], mk) == Apply(m0, id, Entries(s), mk)
  {
    var files := map[id := s];
    ReplayTop(m0, files, id, mk);
    assert files - {id} == map[];
  }

  // ---------------------------------------------------------------------
  // The chronological history: every record of the directory, in
  // ascending segment id order and, within a segment, in file order.
  // ---------------------------------------------------------------------

  /** A record together with the segment it was written to. */
  datatype Event = Event(segment: nat, entry: Entry)

  function Tag(id: nat, es: seq<Entry>): seq<Event>
  {
    seq(|es|, i requires 0 <= i < |es| => Event(id, es[i]))
  }

  ghost function History(files: map<nat, Bytes>): seq<Event>
    decreases files.Keys
  {
    if files.Keys == {} then []
    else
      var last := MaxId(files.Keys);
      assert (files - {last}).Keys < files.Keys;
      History(files - {last}) + Tag(last, Entries(files[last]))
  }

  /** Apply the events of h in order. */
  function Fold<V>(m: map<Bytes, V>, h: seq<Event>, mk: (nat, Entry) -> V): map<Bytes, V>
    decreases |h|
  {
    if h == [] then m else Fold(Step(m, h[0].segment, h[0].entry, mk), h[1..], mk)
  }

  /** Event i is the last one in h that writes key k. */
  predicate LastWrite(h: seq<Event>, k: Bytes, i: int)
  {
    0 <= i < |h| && h[i].entry.key == k && forall j :: i < j < |h| ==> h[j].entry.key != k
  }

  lemma {:induction false} FoldConcat<V>(m: map<Bytes, V>, a: seq<Event>, b: seq<Event>, mk: (nat, Entry) -> V)
    ensures Fold(m, a + b, mk) == Fold(Fold(m, a, mk), b, mk)
    decreases |a|
  {
    if a == [] {
      assert a + b == b;
    } else {
      assert (a + b)[1..] == a[1..] + b;
      FoldConcat(Step(m, a[0].segment, a[0].entry, mk), a[1..], b, mk);
    }
  }

  lemma {:induction false} ApplyIsFold<V>(m: map<Bytes, V>, id: nat, es: seq<Entry>, mk: (nat, Entry) -> V)
    ensures Apply(m, id, es, mk) == Fold(m, Tag(id, es), mk)
    decreases |es|
  {
    if es != [] {
      assert Tag(id, es)[1..] == Tag(id, es[1..]);
      ApplyIsFold(Step(m, id, es[0], mk), id, es[1..], mk);
    }
  }

  /** The replay of the directory is the fold of its history. */
  lemma {:induction false} ReplayIsFold<V>(m0: map<Bytes, V>, files: map<nat, Bytes>, mk: (nat, Entry) -> V)
    ensures Replay(m0, files, mk) == Fold(m0, History(files), mk)
    decreases files.Keys
  {
    if files.Keys != {} {
      var last := MaxId(files.Keys);
      assert (files - {last}).Keys < files.Keys;
      ReplayIsFold(m0, files - {last}, mk);
      ApplyIsFold(Replay(m0, files - {last}, mk), last, Entries(files[last]), mk);
      FoldConcat(m0, History(files - {last}), Tag(last, Entries(files[last])), mk);
    }
  }

  /** After the fold, a key that no event writes is as m had it. */
  lemma {:induction false} FoldUntouched<V>(m: map<Bytes, V>, h: seq<Event>, k: Bytes, mk: (nat, Entry) -> V)
    requires forall j :: 0 <= j < |h| ==> h[j].entry.key != k
    ensures k in Fold(m, h, mk) <==> k in m
    ensures k in m ==> Fold(m, h, mk)[k] == m[k]
    decreases |h|
  {
    if h != [] {
      assert h[0].entry.key != k;
      assert forall j :: 0 <= j < |h[1..]| ==> h[1..][j] == h[j + 1];
      FoldUntouched(Step(m, h[0].segment, h[0].entry, mk), h[1..], k, mk);
    }
  }

  /** After the fold, a key whose last write is event i is present iff that
      write is not the tombstone, and then holds what mk makes of it. */
  lemma {:induction false} FoldLast<V>(m: map<Bytes, V>, h: seq<Event>, k: Bytes, i: int, mk: (nat, Entry) -> V)
    requires LastWrite(h, k, i)
    ensures k in Fold(m, h, mk) <==> h[i].entry.value != TOMBSTONE
    ensures k in Fold(m, h, mk) ==> Fold(m, h, mk)[k] == mk(h[i].segment, h[i].entry)
    decreases |h|
  {
    var m' := Step(m, h[0].segment, h[0].entry, mk);
    if i > 0 {
      assert LastWrite(h[1..], k, i - 1);
      FoldLast(m', h[1..], k, i - 1, mk);
    } else {
      assert forall j :: 0 <= j < |h[1..]| ==> h[1..][j] == h[j + 1];
      FoldUntouched(m', h[1..], k, mk);
    }
  }

  lemma {:induction false} LastExists(h: seq<Event>, k: Bytes, j: int)
    requires 0 <= j < |h| && h[j].entry.key == k
    ensures exists i :: LastWrite(h, k, i)
    decreases |h|
  {
    if h[|h| - 1].entry.key == k {
      assert LastWrite(h, k, |h| - 1);
    } else {
      var h' := h[..|h| - 1];
      LastExists(h', k, j);
      var i :| LastWrite(h', k, i);
      assert LastWrite(h, k, i);
    }
  }

  /** What the replayed index holds for k: k is indexed iff its
      chronologically last record is not the tombstone, and then the entry
      addresses that record. */
  lemma IndexIsLastWrite(files: map<nat, Bytes>, k: Bytes)
    ensures var h := History(files);
      && (k in IndexOf(files) <==> exists i :: LastWrite(h, k, i) && h[i].entry.value != TOMBSTONE)
      && forall i :: LastWrite(h, k, i) && h[i].entry.value != TOMBSTONE ==>
           IndexOf(files)[k] == Loc(h[i].segment, h[i].entry.offset)
  {
    var h := History(files);
    ReplayIsFold(map[], files, LocOf);
    forall i | LastWrite(h, k, i) ensures k in IndexOf(files) <==> h[i].entry.value != TOMBSTONE
      ensures h[i].entry.value != TOMBSTONE ==> IndexOf(files)[k] == Loc(h[i].segment, h[i].entry.offset)
    {
      FoldLast(map[], h, k, i, LocOf);
    }
    if forall j :: 0 <= j < |h| ==> h[j].entry.key != k {
      FoldUntouched(map[], h, k, LocOf);
    } else {
      var j :| 0 <= j < |h| && h[j].entry.key == k;
      LastExists(h, k, j);
    }
  }

  /** The same for the live map: k is live iff its last record is not the
      tombstone, and then its live value is that record's value. */
  lemma LiveIsLastWrite(files: map<nat, Bytes>, k: Bytes)
    ensures var h := History(files);
      && (k in LiveOf(files) <==> exists i :: LastWrite(h, k, i) && h[i].entry.value != TOMBSTONE)
      && forall i :: LastWrite(h, k, i) && h[i].entry.value != TOMBSTONE ==>
           LiveOf(files)[k] == h[i].entry.value
  {
    var h := History(files);
    ReplayIsFold(map[], files, ValueOf);
    forall i | LastWrite(h, k, i) ensures k in LiveOf(files) <==> h[i].entry.value != TOMBSTONE
      ensures h[i].entry.value != TOMBSTONE ==> LiveOf(files)[k] == h[i].entry.value
    {
      FoldLast(map[], h, k, i, ValueOf);
    }
    if forall j :: 0 <= j < |h| ==> h[j].entry.key != k {
      FoldUntouched(map[], h, k, ValueOf);
    } else {
      var j :| 0 <= j < |h| && h[j].entry.key == k;
      LastExists(h, k, j);
    }
  }

  /** Parsed records lie at strictly increasing offsets from pos on. */
  lemma {:induction false} ParseOffsets(s: Bytes, pos: nat)
    requires pos <= |s| && Parse(s, pos).Some?
    ensures var es := Parse(s, pos).value;
      && (forall i :: 0 <= i < |es| ==> pos <= es[i].offset < |s|)
      && (forall i, j :: 0 <= i < j < |es| ==> es[i].offset < es[j].offset)
    decreases |s| - pos
  {
    if pos < |s| {
      var next := FrameEnd(s, pos);
      ParseOffsets(s, next);
      var es := Parse(s, pos).value;
      assert forall i :: 1 <= i < |es| ==> es[i] == Parse(s, next).value[i - 1];
    }
  }

  /** The history is an event for each record of each segment and nothing else. */
  lemma {:induction false} HistoryRecords(files: map<nat, Bytes>)
    ensures forall id, e :: Event(id, e) in History(files) <==> id in files && e in Entries(files[id])
    decreases files.Keys
  {
    if files.Keys != {} {
      var last := MaxId(files.Keys);
      assert (files - {last}).Keys < files.Keys;
      HistoryRecords(files - {last});
      var es := Entries(files[last]);
      var t := Tag(last, es);
      forall id, e
        ensures Event(id, e) in t <==> id == last && e in es
      {
        if Event(id, e) in t {
          var i :| 0 <= i < |t| && t[i] == Event(id, e);
        }
        if id == last && e in es {
          var i :| 0 <= i < |es| && es[i] == e;
          assert t[i] == Event(id, e);
        }
      }
    }
  }

  /** Events in ascending segment id order, then ascending offsets within a segment. */
  predicate Chronological(h: seq<Event>)
  {
    forall i, j :: 0 <= i < j < |h| ==>
      h[i].segment < h[j].segment || (h[i].segment == h[j].segment && h[i].entry.offset < h[j].entry.offset)
  }

  /** The history is chronological. */
  lemma {:induction false} HistoryOrdered(files: map<nat, Bytes>)
    ensures Chronological(History(files))
    decreases files.Keys
  {
    if files.Keys != {} {
      var last := MaxId(files.Keys);
      var rest := files - {last};
      assert rest.Keys < files.Keys;
      HistoryOrdered(rest);
      HistorySegments(rest);
      var es := Entries(files[last]);
      if WellFormed(files[last]) {
        ParseOffsets(files[last], 0);
      }
      var h1, t := History(rest), Tag(last, es);
      var h := h1 + t;
      forall i, j | 0 <= i < j < |h|
        ensures h[i].segment < h[j].segment || (h[i].segment == h[j].segment && h[i].entry.offset < h[j].entry.offset)
      {
        if j < |h1| {
          assert h[i] == h1[i] && h[j] == h1[j];
        } else if i < |h1| {
          assert h[i] == h1[i] && h[j] == t[j - |h1|] == Event(last, es[j - |h1|]);
          assert h1[i].segment in rest;
        } else {
          assert h[i] == t[i - |h1|] == Event(last, es[i - |h1|]);
          assert h[j] == t[j - |h1|] == Event(last, es[j - |h1|]);
        }
      }
    }
  }

  lemma {:induction false} HistorySegments(files: map<nat, Bytes>)
    ensures forall i :: 0 <= i < |History(files)| ==> History(files)[i].segment in files
    decreases files.Keys
  {
    if files.Keys != {} {
      var last := MaxId(files.Keys);
      assert (files - {last}).Keys < files.Keys;
      HistorySegments(files - {last});
    }
  }
}
