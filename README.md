# Bitcask storage engine, modelled in Dafny

A model of `main.py`, a Bitcask-style log-structured key-value store, with
proofs about it. The store keeps a directory of append-only segment files
named `segment-<id, at least six digits>.db`. Every `put` whose lengths
fit 32 bits, and every `delete` of an indexed key, appends a record to the
active segment, the one with the largest id. A record is an 8-byte
big-endian header (key length, value length) followed by the key and
then the value. A delete appends the reserved value `__tombstone__`. An
in-memory index maps each key to the segment and offset of its latest
record. Opening the store replays every segment in order to rebuild that
index. A merge compacts all segments into one.

Files, one module each:

- `codec.dfy` (`Codec`) covers record framing:
  - the big-endian `u32` fields;
  - `struct.pack('>II', ...) + key + value`;
  - `read_at` on a segment's bytes, including Python's short reads.
- `log.dfy` (`Log`) is the log view of a directory (segment id to bytes):
  - a segment parsed into its records;
  - the replay that the two scan loops perform, as one fold (`Replay`). It
    builds either the index (`IndexOf`) or the live key-to-value map
    (`LiveOf`);
  - the chronological history of all records (`History`);
  - lemmas relating these to each other and to appends.
- `naming.dfy` (`Naming`) covers segment file names:
  - formatting an id as a name and parsing it back;
  - how sorting names compares with sorting ids.
- `segment.dfy` (`Segments`) holds two classes:
  - the directory, a mutable map from segment id to file bytes;
  - the `Segment` handle with `write`, `read_at` and `size`.
- `engine.dfy` (`Engine`) holds:
  - the startup id computation and the two scan loops, as methods with
    loop invariants;
  - the `Bitcask` class, with `Put`, `Get`, `Delete` and `MergeSegments`
    over the fields `segmentId`, `active` and `index`.

The `Bitcask` invariant `Valid()` says four things:

- the active handle is on the store's directory and has id `segmentId`;
- `segmentId` is a segment of the directory, and no segment has a larger id;
- every segment is a whole number of records;
- every index entry addresses a whole record of its key (`Points`).

`Points` is what makes `Contents()` defined: the map read through the
index, key to the value of the addressed record. `Get` promises, in its own
contract, to return exactly what `Contents()` holds for the key.

`Fresh()` says the index equals the replay of the log. It holds after
opening. `Put` keeps it unless the value stored is the tombstone itself.
`Delete` and `MergeSegments` keep it.

The index stores a segment id where `main.py` stores the file's basename and
parses the id back out of it (main.py:78, main.py:85, main.py:119).
`Naming.ParseFileName` proves that parse inverts the format for every id.

## Model

| member | source | states |
|---|---|---|
| Codec.DecodeEncodeU32 | main.py:20 | Unpacking a packed big-endian u32 gives the number back. |
| Codec.EncodeDecodeU32 | main.py:28 | Packing any 4 bytes unpacked as a u32 gives the bytes back. |
| Codec.EncodeRecord | main.py:20 | The frame of a record is 8 header bytes plus the key and the value. |
| Codec.ReadAt | main.py:25-31 | Reading fails iff fewer than 8 bytes remain at pos. Short reads return at most the declared lengths, and strictly less in total when the record is cut off. A whole record reads back as exactly the record at pos. |
| Codec.RoundTrip | main.py:18-31 | Framing round trip: the record framed after any prefix reads back exactly at the prefix's length, whatever follows. |
| Codec.FitsExtend | main.py:18-23 | Appending bytes leaves every record already in the segment, and where it ends, unchanged. |
| Log.ParseAppend | main.py:18-23 | Appending one frame to a parsed run of records adds exactly one record, at the old length. |
| Log.EntriesAppend | main.py:18-23 | The same, for a whole well-formed segment: its record list gains exactly the appended record. |
| Log.EntriesFit | main.py:59-62 | Every record the scan finds is the record that reading at its offset returns. |
| Log.ParseOffsets | main.py:59-67 | The scan visits records at strictly increasing offsets inside the segment. |
| Log.ApplyFirst | main.py:59-67 | One turn of the scan loop applies the first record, then continues after its frame. |
| Log.ReplayTop | main.py:54-55 | Replay applies the segment with the largest id after all the others. |
| Log.ReplayRestrictNext | main.py:54-55 | Scanning one more segment, above all scanned so far, extends the replay by that segment. |
| Log.ReplayNewEmpty | main.py:44-47 | A new empty segment above all others changes no replay. |
| Log.ReplayAppendTop | main.py:77-78 | Appending a record to the newest segment extends the replay by exactly one step for that record. |
| Log.FreshIndexShowsLive | main.py:53-67 | A replayed index addresses, for every live key, a record holding the key's live value, and it holds no other key. |
| Log.VisibleExtends | main.py:18-23 | Appending to segments or adding segments changes nothing an index entry addresses. |
| Log.LiveNoTombstone | main.py:106-109 | The live map never holds the tombstone value. |
| Log.LiveEncodable | main.py:117-118 | Every live pair fits the 32-bit header again, so the merge's writes cannot fail. |
| Log.AppendRecord | main.py:77-78 | Appending to the newest segment keeps every segment whole and every entry's target intact. The new record lies at the old length, and the replayed index takes one more step. |
| Log.CreateSegment | main.py:72-75 | A new empty segment above all others keeps every segment whole and changes neither what the index shows nor the replayed index. |
| Log.SingleSegmentReplay | main.py:114-125 | A directory of one segment replays as that segment's records. |
| Log.ReplayIsFold | main.py:53-67 | Replaying the directory equals applying its chronological history record by record. |
| Log.FoldUntouched | main.py:63-66 | A key that no record writes keeps its initial state. |
| Log.FoldLast | main.py:63-66 | A key is present after the replay iff its last record is not the tombstone, and then it holds that record's location or value. |
| Log.IndexIsLastWrite | main.py:53-67 | After the index load a key is indexed iff its chronologically last record is not the tombstone. Its entry is then that record's segment and offset. |
| Log.LiveIsLastWrite | main.py:96-109 | After the merge scan a key is live iff its last record is not the tombstone. Its value is then that record's value. |
| Log.HistoryRecords | main.py:54-62 | The history holds exactly the records of every segment of the directory. |
| Log.HistoryOrdered | main.py:54-62 | The history is chronological: ascending segment id, then ascending offset. |
| Naming.DecimalDigits | main.py:14 | The zero-padded decimal form of an id is digits only and reads back as the id. |
| Naming.ParseFileName | main.py:14 | Parsing a segment's file name (main.py:50, main.py:85) gives back its id, for every id. |
| Naming.DecimalLength | main.py:14 | Below 10^width, the padded form has exactly width digits. |
| Naming.DecimalOrder | main.py:14 | Padded forms of the same width sort lexically in numeric order. |
| Naming.NameOrderMatchesIdOrder | main.py:54 | Below 10^6, sorting names lexically (main.py:54, main.py:98) lists segments in ascending id order. |
| Naming.NameOrderBreaksAtMillion | main.py:98 | From 10^6 on the two orders differ: segment 1000000's name sorts before segment 999999's. |
| Engine.NameOrderScan | main.py:54-67 | Segments 999999 and 1000000 both write a key. Scanned in name order, the key ends with the older segment's record. That is its location after the index load, and its value after the merge scan (main.py:98-109). |
| Engine.IdOrderReplay | main.py:53-67 | For the same two segments, the replay in id order ends with the newer segment's record, as location or as value (main.py:96-109). |
| Engine.NameOrderReplayKeepsOlder | main.py:54-67 | For segments 999999 and 1000000 that both write a key, the names sort 1000000 first. In that order the index load points the key at Loc(999999, 0), and the merge scan (main.py:98-109) keeps the older value. In id order they give Loc(1000000, 0) and the newer value. |
| Segments.Segment.constructor | main.py:13-16 | Opening a handle creates the segment's file, empty, when absent, and changes nothing else. |
| Segments.Segment.Write | main.py:18-23 | The write succeeds iff both lengths fit 32 bits. It returns the old length and extends the file by exactly the frame. No other segment changes. A failed write changes nothing. |
| Segments.Segment.ReadAt | main.py:25-31 | A positional read returns what reading the file's bytes at that offset gives, and the exact record when one lies there. |
| Segments.Segment.Size | main.py:33-34 | The size is the file's current length. |
| Engine.NextSegmentId | main.py:49-51 | The next id is above every existing id and is the maximum plus one, or 1 when there are none. |
| Engine.SortedIds | main.py:54 | The ids are listed once each, in strictly ascending order. |
| Engine.NextId | main.py:55 | Each turn of a scan over ascending ids takes a segment above all segments already scanned. |
| Engine.ScanIndexSegment | main.py:56-67 | The index-load loop over one segment ends with the index that replaying that segment's records builds. |
| Engine.ScanIndex | main.py:54-67 | The index load over all segments ends with the replay of the whole directory. |
| Engine.ScanValueSegment | main.py:100-109 | The merge-scan loop over one segment ends with the map that replaying that segment's records builds. |
| Engine.ScanValues | main.py:97-109 | The merge scan over all segments ends with the live key-to-value map. |
| Engine.OpenFacts | main.py:41-47 | Adding the new empty segment keeps the directory whole, and the replayed index then shows exactly the live map. |
| Engine.RotateFacts | main.py:72-75 | Rotation keeps the invariant with the id one higher and changes nothing visible. |
| Engine.AppendFacts | main.py:77-78 | The append keeps the invariant and makes the key show the new value. A fresh index stays fresh unless the value is the tombstone. |
| Engine.PutFacts | main.py:69-78 | The put transition keeps the invariant and only appends. The key shows the new value when the write succeeds, and nothing changes visibly when it fails. |
| Engine.DeleteFacts | main.py:90-94 | Appending a tombstone and dropping the key keeps the invariant, hides exactly that key, and keeps a fresh index fresh. |
| Engine.WrittenReplay | main.py:117-119 | Writing the next live pair extends the replay of what was written by that pair. |
| Engine.WrittenStep | main.py:117-119 | Each write of the merge loop keeps one record per merged key with its merged value, and indexes it at its offset. |
| Engine.CompactedNoTombstone | main.py:117-119 | The merged segment holds no tombstone record. |
| Engine.MergeFacts | main.py:111-125 | The single merged segment satisfies the invariant, is indexed freshly and has the old live map. |
| Engine.Bitcask.constructor | main.py:41-47 | Opening picks an id above all existing ones and adds its empty segment. The index is then the replay of the log, and the visible map is the directory's live map. |
| Engine.Bitcask.LoadIndex | main.py:53-67 | The index becomes the replay of every segment in ascending order, over the index it started from. |
| Engine.Bitcask.Put | main.py:69-78 | Rotates iff the active size exceeds 1024, and then the id grows by exactly 1. Fails iff a length exceeds 32 bits. Appends exactly one frame and points the key at it, leaving other segments and keys unchanged. The visible map gains key to value. A fresh index stays fresh unless the value is the tombstone. |
| Engine.Bitcask.Get | main.py:80-88 | Returns the visible value of the key, or None. With a fresh index that is the key's live value. It changes nothing. |
| Engine.Bitcask.Delete | main.py:90-94 | On an indexed key, appends one tombstone to the active segment and removes only that key. On an absent key, changes nothing. The key disappears from the visible map, and freshness is kept. |
| Engine.Bitcask.WriteMerged | main.py:117-119 | Writes one record per merged key, with its value and no key twice, into the new segment. Indexes each at its offset, and touches no other segment. |
| Engine.Bitcask.RemoveSegments | main.py:122-123 | Removes exactly the listed segments. |
| Engine.Bitcask.MergeSegments | main.py:96-125 | Exactly one segment remains, with the old id plus 1. It holds one non-tombstone record per live key, each with its live value. Every index entry points into it, the index is fresh, and the live map is unchanged. A fresh index before the merge makes the visible map unchanged too. |
| Engine.PutThenGet | main.py:69-88 | A get after a successful put of the same key returns the value put. |

## Left out

- The driver at main.py:131-138 is a demonstration caller, not engine logic.
- File-system calls are replaced by the directory map. These are `os.makedirs`, `os.listdir`, `open`, `seek`, `tell`, `os.path.getsize` and `os.remove`.
- `close` and `flush` keep no state the model can observe, and durability cannot be stated. This covers main.py:22, 36-37, 73, 87, 112 and 127-128.
- `os.listdir` can list files other than segments; the `startswith('segment-')` filter (main.py:50, 54, 98) is not modelled. The directory holds only segments.
- Keys and values are byte sequences. The UTF-8 `str.encode` and `bytes.decode` calls of put, get and delete are library calls. A decode error in `get` is not modelled.
- Engine.SortedIds: segments are replayed in ascending numeric id order, where main.py sorts file names lexically. The two agree only below 10^6 (see Findings).
- Engine.Bitcask.constructor: every existing segment must be a whole number of records. For a truncated tail, main.py raises `struct.error` or reads short, and defines no recovery.
- Engine.Bitcask.WriteMerged: the live pairs are written in an arbitrary order chosen by the model, standing for Python's dictionary order.
- Engine.Bitcask.Put: storing a value equal to `__tombstone__` is not rejected, as in main.py. The index then holds the key, but the replay after a reopen drops it, so freshness is promised only for other values.
- Engine.Bitcask.MergeSegments: the visible map is promised unchanged only when the index was fresh before the merge. Freshness holds from opening on as long as no put stored the tombstone value. This is the contract's form of the condition "no user value equals the tombstone".
- Naming.ParseFileName: `int()` in main.py also accepts signs, spaces and underscores. Only digit strings are modelled, which is all that the name format produces.
- The comment at main.py:8 calls the limit 1MB, but the value is 1024 bytes; the model uses 1024.
- Four exceptions are modelled, each as an error value:
  - the `struct.error` of packing a length that does not fit is `Err(LengthOutOfRange)` from `Segment.Write`;
  - the `struct.error` of unpacking a short header in `read_at` is `Err(ShortHeader)` from `Codec.ReadAt`;
  - the `IndexError` of `split('-')[1]` on a name without a '-' is `None` from `Naming.ParseId`;
  - the `ValueError` of `int()` on an empty or non-digit string is `None` from `Naming.ParseDecimal`.
- The unused `random` import has no counterpart.

## Findings

| source | as written | input that shows it | evidently intended | confidence | as-written member | corrected member |
|---|---|---|---|---|---|---|
| main.py:54 | `sorted(...)` orders the `segment-%06d.db` names lexically, and the index load applies segments in that order, as does the merge scan at main.py:98 | segments 999999 and 1000000 both exist: the name of 1000000 sorts first, so the index points the key at its older record and the merge keeps the older value | segments replayed in ascending id order, so later writes win | not executed | Engine.NameOrderReplayKeepsOlder | Engine.SortedIds |
