/** The storage directory and the segment handle of main.py:12-37. The
    directory is the set of segment files, keyed by segment id; a Segment is
    a handle on the file of one id, and writing through it appends to that
    file. */
module Segments {
  import opened Codec

  /** The store's directory: segment id to the bytes of that segment's file. */
  class Directory {
    var files: map<nat, Bytes>

    constructor (files: map<nat, Bytes>)
      ensures this.files == files
    {
      this.files := files;
    }
  }

  class Segment {
    const dir: Directory
    const id: nat

    /** Opening the file for appending creates it, empty, when it does not exist. */
    constructor (dir: Directory, id: nat)
      modifies dir
      ensures this.dir == dir && this.id == id
      ensures id in old(dir.files) ==> dir.files == old(dir.files)
      ensures id !in old(dir.files) ==> dir.files == old(dir.files)[id := []]
    {
      this.dir := dir;
      this.id := id;
      new;
      if id !in dir.files {
        dir.files := dir.files[id := []];
      }
    }

    /** Append the framed record at the end of the file and return the offset
        where it starts, the old length. A length that does not fit the
        header fails before anything is written. */
    method Write(key: Bytes, value: Bytes) returns (r: Result<nat>)
      requires id in dir.files
      modifies dir
      ensures r.Ok? <==> Encodable(key, value)
      ensures r.Ok? ==> r.value == |old(dir.files[id])|
      ensures r.Ok? ==> dir.files == old(dir.files)[id := old(dir.files[id]) + EncodeRecord(key, value)]
      ensures r.Err? ==> r.error == LengthOutOfRange && dir.files == old(dir.files)
    {
      var pos := |dir.files[id]|;
      if !Encodable(key, value) {
        return Err(LengthOutOfRange);
      }
      var record := EncodeRecord(key, value);
      dir.files := dir.files[id := dir.files[id] + record];
      r := Ok(pos);
    }

    /** Read the record whose header starts at pos. The method only forwards
        to Codec.ReadAt on the file's bytes, which carries the contract of the
        read itself. */
    method ReadAt(pos: nat) returns (r: Result<Record>)
      requires id in dir.files
      ensures r == Codec.ReadAt(dir.files[id], pos)
      ensures Fits(dir.files[id], pos) ==> r == Ok(RecordAt(dir.files[id], pos))
    {
      r := Codec.ReadAt(dir.files[id], pos);
    }

    /** The file's current length in bytes. */
    method Size() returns (n: nat)
      requires id in dir.files
      ensures n == |dir.files[id]|
    {
      n := |dir.files[id]|;
    }
  }
}
