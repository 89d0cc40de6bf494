/** The write-ahead log file (wal.cpp, class WAL), with the file's bytes and the descriptor's offset.
    What the operating system does is a parameter: whether a file opens, how many bytes a write takes,
    how many bytes can be read. */
module Wal {
  import opened Bytes
  import opened Options
  import opened WalCodec

  /** `write` of `data` at offset `off` of a file not opened in append mode. */
  function Overwrite(file: Bytes, off: nat, data: Bytes): (r: Bytes)
    requires off <= |file|
    ensures |r| == if off + |data| <= |file| then |file| else off + |data|
    ensures forall i :: 0 <= i < |r| ==> r[i] == if off <= i < off + |data| then data[i - off] else file[i]
  {
    file[..off] + data + (if off + |data| <= |file| then file[off + |data|..] else [])
  }

  lemma OverwriteAtEnd(file: Bytes, data: Bytes)
    ensures Overwrite(file, |file|, data) == file + data
  {
    assert file[..|file|] == file;
  }

  function Min(a: nat, b: nat): nat {
    if a < b then a else b
  }

  /** The parse loop: record after record until one does not decode. */
  method ParseLog(content: Bytes) returns (records: seq<Record>)
    ensures records == ReadAll(content)
  {
    hide Decode, ReadAll;
    records := [];
    var offset := 0;
    assert content[0..] == content;
    while offset < |content|
      invariant 0 <= offset <= |content|
      invariant records + ReadAll(content[offset..]) == ReadAll(content)
      decreases |content| - offset
    {
      ReadAllUnfold(content[offset..]);
      var decoded := Decode(content[offset..]);
      if decoded == None {
        return;
      }
      var (r, consumed) := decoded.value;
      assert content[offset..][consumed..] == content[offset + consumed..];
      records := records + [r];
      offset := offset + consumed;
    }
    assert content[offset..] == [];
    ReadAllOfNothing();
  }

  class WAL {
    var file: Bytes
    var fd: Option<nat>
    var writePos: nat
    var isOpen: bool
    var enabled: bool

    ghost predicate Sound()
      reads this
    {
      && enabled == isOpen
      && (fd.Some? ==> isOpen && fd.value <= |file|)
    }

    /** An open log's descriptor stands at the end of the file. */
    ghost predicate Valid()
      reads this
    {
      Sound() && (isOpen ==> fd == Some(|file|))
    }

    /** And `writePos` says so. */
    ghost predicate Exact()
      reads this
    {
      Valid() && (isOpen ==> writePos == |file|)
    }

    /** The singleton before `Init`, over the file found on disk. */
    constructor (found: Bytes)
      ensures Valid() && !enabled && file == found
    {
      file := found;
      fd := None;
      writePos := 0;
      isOpen := false;
      enabled := false;
    }

    /** Opens the log, or degrades to no log at all. */
    method Init(opens: bool)
      requires Sound()
      modifies this
      ensures Exact() && enabled == opens && file == old(file)
    {
      if isOpen {
        fd := None;
        isOpen := false;
      }
      if opens {
        fd := Some(|file|);
        writePos := |file|;
        isOpen := true;
      }
      enabled := opens;
    }

    method Shutdown()
      requires Sound()
      modifies this
      ensures Valid() && !enabled && file == old(file)
    {
      if isOpen {
        fd := None;
        isOpen := false;
      }
      enabled := false;
    }

    /** With the descriptor at the end, an append lands at the end, although the file is not opened in append mode;
        a write that takes fewer bytes leaves that part of the record and throws, the descriptor still at the end.
        With the descriptor elsewhere, older bytes are overwritten; without one, nothing is written. */
    method Append(r: Record, accepted: nat) returns (threw: bool)
      requires Sound()
      modifies this
      ensures Sound() && enabled == old(enabled)
      ensures old(Valid()) ==> Valid()
      ensures old(Exact()) ==> (Exact() <==> !enabled || accepted == 0 || accepted >= |Encode(r)|)
      ensures threw <==> enabled && (old(fd) == None || accepted < |Encode(r)|)
      ensures var part := Encode(r)[..Min(accepted, |Encode(r)|)];
              && file == (if old(fd) == None then old(file) else Overwrite(old(file), old(fd).value, part))
              && (old(Valid()) ==> file == if enabled then old(file) + part else old(file))
    {
      hide Encode;
      if !enabled {
        return false;
      }
      var data := Encode(r);
      if fd == None {
        return true;
      }
      var n := Min(accepted, |data|);
      OverwriteAtEnd(file, data[..n]);
      file := Overwrite(file, fd.value, data[..n]);
      fd := Some(fd.value + n);
      if n != |data| {
        return true;
      }
      writePos := writePos + n;
      return false;
    }

    /** Reads the file in pieces of any size as far as it can be read, then parses it record by record. The
        descriptor, rewound for reading, is back at the end exactly when everything was read. */
    method ReadAll(readable: nat) returns (records: seq<Record>)
      requires Valid()
      modifies this
      ensures Sound() && enabled == old(enabled) && isOpen == old(isOpen) && file == old(file)
      ensures Valid() <==> !isOpen || readable >= |file|
      ensures old(Exact()) ==> (Exact() <==> !isOpen || readable >= |file|)
      ensures records == if isOpen then WalCodec.ReadAll(file[..Min(readable, |file|)]) else []
    {
      hide WalCodec.ReadAll;
      records := [];
      if !isOpen {
        return;
      }
      fd := Some(|file|);
      if |file| == 0 {
        ReadAllOfNothing();
        return;
      }
      fd := Some(0);
      var content: Bytes := [];
      var limit := Min(readable, |file|);
      while |content| < limit
        invariant file == old(file) && isOpen == old(isOpen) && enabled == old(enabled) && writePos == old(writePos)
        invariant |content| <= limit && content == file[..|content|] && fd == Some(|content|)
      {
        var n: nat :| 1 <= n <= limit - |content|;
        content := content + file[|content|..|content| + n];
        fd := Some(|content|);
      }

      records := ParseLog(content);
    }

    /** The size, with the descriptor put back where it stood. */
    method GetFileSize() returns (size: nat)
      requires Sound()
      modifies this
      ensures Sound() && enabled == old(enabled) && file == old(file) && fd == old(fd) && isOpen == old(isOpen)
      ensures old(Exact()) ==> Exact()
      ensures size == if fd.Some? then |file| else 0
    {
      if !isOpen || fd == None {
        return 0;
      }
      var cur := fd.value;
      fd := Some(|file|);
      size := fd.value;
      fd := Some(cur);
    }

    /** Empties the file, or throws and leaves the log enabled without a descriptor. */
    method ClearWithoutLock(opens: bool) returns (threw: bool)
      requires Sound()
      modifies this
      ensures Sound() && enabled == old(enabled)
      ensures threw <==> enabled && !opens
      ensures enabled && opens ==> Exact() && file == []
      ensures !enabled || threw ==> file == old(file)
      ensures threw ==> fd == None
      ensures !enabled ==> fd == old(fd)
    {
      if !enabled {
        return false;
      }
      fd := None;
      if !opens {
        return true;
      }
      file := [];
      fd := Some(0);
      writePos := 0;
      return false;
    }
  }
}
