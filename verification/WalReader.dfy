/** Scanning a log file: what one step finds, and what a whole replay visits. */
module WalReader {
  import opened Words
  import opened Record

  datatype View = View(header: Header, payload: Bytes, offset: nat)

  /** A record, or the status that ends the scan. */
  datatype Found = Found(view: View) | Stop(status: StatusCode)

  /** What `next` finds at an offset of a file. */
  function FindRecord(file: Bytes, offset: nat): Found {
    if offset >= |file| then Stop(Empty)
    else
      var tail := file[offset..];
      if |tail| < 40 then Stop(Empty)  // short slack or a torn header
      else
        var h := Deserialize(tail);
        if h.magic == 0 && ZeroFilled(tail) then Stop(Empty)
        else if ShapeStatus(h) != Ok then Stop(ShapeStatus(h))
        else if TotalSize(h) > |tail| then Stop(Empty)  // a torn record
        else
          var payload := tail[40..TotalSize(h)];
          if h.checksum != RecordChecksum(h, payload) then Stop(CorruptedRecord)
          else Found(View(h, payload, offset))
  }

  /** On any bytes at all: a record found lies inside the file and is at least a header long. */
  lemma FoundFits(file: Bytes, offset: nat)
    requires FindRecord(file, offset).Found?
    ensures var v := FindRecord(file, offset).view;
            && v.offset == offset
            && 40 <= TotalSize(v.header) == 40 + |v.payload|
            && offset + TotalSize(v.header) <= |file|
            && v.payload == file[offset + 40..offset + TotalSize(v.header)]
  {
    hide Deserialize, RecordChecksum;
    var v := FindRecord(file, offset).view;
    assert file[offset..][40..TotalSize(v.header)] == file[offset + 40..offset + TotalSize(v.header)];
  }

  /** A caller's visitor: its answer may depend on everything it has been shown. */
  type Visitor = seq<View> -> StatusCode

  datatype Replayed = Replayed(visited: seq<View>, status: StatusCode)

  /** What `replay` shows the visitor from an offset on, and what it returns. */
  function Replay(file: Bytes, offset: nat, visitor: Visitor, seen: seq<View>): Replayed
    decreases |file| - offset
  {
    var found := FindRecord(file, offset);
    if found.Stop? then Replayed(seen, if found.status == Empty then Ok else found.status)
    else
      FoundFits(file, offset);
      var seen' := seen + [found.view];
      if visitor(seen') != Ok then Replayed(seen', visitor(seen'))
      else Replay(file, offset + TotalSize(found.view.header), visitor, seen')
  }

  /** A file of n bytes holds at most n / 40 records, so every replay ends soon. */
  lemma {:induction false} ReplayIsBounded(file: Bytes, offset: nat, visitor: Visitor, seen: seq<View>)
    ensures var visited := Replay(file, offset, visitor, seen).visited;
            && seen <= visited
            && (offset <= |file| ==> 40 * (|visited| - |seen|) <= |file| - offset)
    decreases |file| - offset
  {
    hide FindRecord;
    var found := FindRecord(file, offset);
    if found.Stop? {
    } else {
      FoundFits(file, offset);
      var seen' := seen + [found.view];
      if visitor(seen') != Ok {
      } else {
        ReplayIsBounded(file, offset + TotalSize(found.view.header), visitor, seen');
      }
    }
  }

  class WalReader {
    var open: bool
    const file: array<U8>
    var currentOffset: nat
    var recordsRead: nat

    constructor (file: array<U8>)
      ensures this.file == file && open && currentOffset == 0 && recordsRead == 0
    {
      this.file := file;
      open := true;
      currentOffset := 0;
      recordsRead := 0;
    }

    /** A default-constructed reader: no file was opened for it, and every call says so. */
    constructor Closed()
      ensures !open && fresh(file) && currentOffset == 0 && recordsRead == 0
    {
      open := false;
      file := new U8[0];
      currentOffset := 0;
      recordsRead := 0;
    }

    /** Never reads outside the file; a failure changes nothing, so asking again gives the same answer. */
    method Next() returns (found: Found)
      modifies this
      ensures open == old(open)
      ensures found == if !open then Stop(InvalidArgument) else FindRecord(file[..], old(currentOffset))
      ensures found.Stop? ==> currentOffset == old(currentOffset) && recordsRead == old(recordsRead)
      ensures found.Found? ==>
                && found.view.offset == old(currentOffset)
                && currentOffset == old(currentOffset) + TotalSize(found.view.header) <= file.Length
                && recordsRead == old(recordsRead) + 1
    {
      if !open { return Stop(InvalidArgument); }
      if currentOffset >= file.Length { return Stop(Empty); }
      var remaining := file.Length - currentOffset;
      var tail := file[currentOffset..];
      assert tail == file[..][currentOffset..];
      if remaining < HEADER_SIZE { return Stop(Empty); }
      var status, header := DeserializeHeader(tail);
      if header.magic == 0 {
        var zero := IsZeroFilled(tail);
        if zero { return Stop(Empty); }
      }
      if ShapeStatus(header) != Ok { return Stop(ShapeStatus(header)); }
      var total := TotalSize(header);
      if total > remaining { return Stop(Empty); }
      var payload := tail[HEADER_SIZE..total];
      var intact := ValidateRecordChecksum(header, payload);
      if !intact { return Stop(CorruptedRecord); }
      found := Found(View(header, payload, currentOffset));
      currentOffset := currentOffset + total;
      recordsRead := recordsRead + 1;
    }

    method Reset() returns (status: StatusCode)
      modifies this
      ensures open == old(open) && status == if open then Ok else InvalidArgument
      ensures if open then currentOffset == 0 && recordsRead == 0
              else currentOffset == old(currentOffset) && recordsRead == old(recordsRead)
    {
      if !open { return InvalidArgument; }
      currentOffset := 0;
      recordsRead := 0;
      status := Ok;
    }

    /** `replay`: shows the visitor every record from the current offset on. */
    method Run(visitor: Visitor) returns (visited: seq<View>, status: StatusCode)
      modifies this
      ensures open == old(open)
      ensures open ==> Replayed(visited, status) == Replay(file[..], old(currentOffset), visitor, [])
      ensures !open ==> visited == [] && status == InvalidArgument
      ensures recordsRead == old(recordsRead) + |visited|
    {
      hide FindRecord;
      visited := [];
      while true
        invariant open == old(open)
        invariant recordsRead == old(recordsRead) + |visited|
        invariant !open ==> visited == []
        invariant open ==> Replay(file[..], currentOffset, visitor, visited)
                           == Replay(file[..], old(currentOffset), visitor, [])
        decreases file.Length - currentOffset
      {
        var found := Next();
        match found {
          case Found(view) =>
            FoundFits(file[..], view.offset);
            visited := visited + [view];
            var answer := visitor(visited);
            if answer != Ok { return visited, answer; }
          case Stop(s) =>
            return visited, if s == Empty then Ok else s;
        }
      }
    }
  }

}
