/** The disk access of the checker, io.c: writes are kept in a list of changes, reads see the disk
    through it, and closing writes it out or drops it. */
module DiskIo {

  datatype Change = Change(pos: nat, data: seq<bv8>)

  /** A disk image after one write; writing behind the end extends it with zeros in between. */
  function Patched(image: seq<bv8>, c: Change): (r: seq<bv8>)
    ensures |r| >= |image|
  {
    if c.data == [] then image
    else
      var n := if c.pos + |c.data| > |image| then c.pos + |c.data| else |image|;
      seq(n, i requires 0 <= i < n =>
        if c.pos <= i < c.pos + |c.data| then c.data[i - c.pos] else if i < |image| then image[i] else 0)
  }

  /** What a write does to a plain array, byte by byte: the range reads back as the data, every other
      byte is as it was, and what a write behind the end leaves open is zero. */
  lemma PatchedBytes(image: seq<bv8>, pos: nat, data: seq<bv8>)
    ensures var r := Patched(image, Change(pos, data));
      && |r| == (if data == [] || pos + |data| <= |image| then |image| else pos + |data|)
      && (data != [] ==> r[pos..pos + |data|] == data)
      && (forall i :: 0 <= i < |image| && !(pos <= i < pos + |data|) ==> r[i] == image[i])
      && (forall i :: |image| <= i < |r| && i < pos ==> r[i] == 0)
  {}

  /** The plain byte array: all writes applied in order. */
  function Applied(image: seq<bv8>, changes: seq<Change>): (r: seq<bv8>)
    ensures |r| >= |image|
  {
    if changes == [] then image
    else Patched(Applied(image, changes[..|changes| - 1]), changes[|changes| - 1])
  }

  lemma AppliedAppend(image: seq<bv8>, changes: seq<Change>, c: Change)
    ensures Applied(image, changes + [c]) == Patched(Applied(image, changes), c)
  {
    assert (changes + [c])[..|changes|] == changes;
  }

  /** Applying the first change to the disk and then the others. */
  lemma {:induction false} AppliedFirst(image: seq<bv8>, changes: seq<Change>)
    requires changes != []
    ensures Applied(image, changes) == Applied(Patched(image, changes[0]), changes[1..])
  {
    hide Patched;
    if |changes| == 1 {
      assert changes[..0] == [];
    } else {
      var front, last := changes[..|changes| - 1], changes[|changes| - 1];
      AppliedFirst(image, front);
      assert changes[1..] == front[1..] + [last];
      AppliedAppend(Patched(image, changes[0]), front[1..], last);
    }
  }

  lemma NothingApplied(image: seq<bv8>)
    ensures Applied(image, []) == image
  {}

  class Disk {
    /** What the device holds. */
    var device: seq<bv8>
    var changes: seq<Change>
    const writeImmed: bool
    var didChange: bool

    constructor (device: seq<bv8>, writeImmed: bool)
      ensures this.device == device && changes == [] && this.writeImmed == writeImmed && !didChange && Valid()
    {
      this.device, this.writeImmed := device, writeImmed;
      changes, didChange := [], false;
    }

    /** Immediate writing leaves no list. */
    predicate Valid()
      reads this
    {
      writeImmed ==> changes == []
    }

    /** The disk as the program sees it. */
    function View(): seq<bv8>
      reads this
    {
      Applied(device, changes)
    }

    /** fs_read: the device first, and then every change that overlaps, in order. It fails only
        behind the end of the device. */
    method FsRead(pos: nat, size: nat) returns (ok: bool, data: array<bv8>)
      ensures fresh(data)
      ensures ok <==> pos + size <= |device|
      ensures ok ==> pos + size <= |View()| && data[..] == View()[pos..pos + size]
    {
      hide Patched;
      data := new bv8[0];
      if pos + size > |device| {
        return false, data;
      }
      var stored := device;
      data := new bv8[size](i requires 0 <= i < size => stored[pos + i]);
      assert changes[..0] == [];
      for k := 0 to |changes|
        invariant fresh(data) && data.Length == size
        invariant forall i :: 0 <= i < size ==> data[i] == Applied(device, changes[..k])[pos + i]
      {
        ghost var image := Applied(device, changes[..k]);
        Overlay(changes[k], pos, data, image);
        assert changes[..k + 1] == changes[..k] + [changes[k]];
        AppliedAppend(device, changes[..k], changes[k]);
      }
      assert changes[..|changes|] == changes;
      return true, data;
    }

    /** The loop body of fs_read: the two forms of memcpy for a change that begins in front of the
        range and for one that does not. */
    method Overlay(c: Change, pos: nat, data: array<bv8>, ghost image: seq<bv8>)
      requires pos + data.Length <= |image|
      requires forall i :: 0 <= i < data.Length ==> data[i] == image[pos + i]
      modifies data
      ensures forall i :: 0 <= i < data.Length ==> data[i] == Patched(image, c)[pos + i]
    {
      var size, n := data.Length, |c.data|;
      if c.pos < pos + size && c.pos + n > pos {
        if c.pos < pos {
          var count := if size < n - pos + c.pos then size else n - pos + c.pos;
          for j := 0 to count
            invariant forall i :: 0 <= i < size ==> data[i] == if i < j then c.data[pos - c.pos + i] else image[pos + i]
          {
            data[j] := c.data[pos - c.pos + j];
          }
        } else {
          var count := if n < size + pos - c.pos then n else size + pos - c.pos;
          for j := 0 to count
            invariant forall i :: 0 <= i < size ==>
              data[i] == if c.pos - pos <= i < c.pos - pos + j then c.data[i - (c.pos - pos)] else image[pos + i]
          {
            data[c.pos - pos + j] := c.data[j];
          }
        }
      }
    }

    /** fs_write. */
    method FsWrite(pos: nat, data: seq<bv8>)
      requires Valid()
      modifies this
      ensures Valid() && View() == Patched(old(View()), Change(pos, data))
      ensures data != [] ==> pos + |data| <= |View()| && View()[pos..pos + |data|] == data
      ensures forall i :: 0 <= i < |old(View())| && !(pos <= i < pos + |data|) ==> i < |View()| && View()[i] == old(View())[i]
      ensures !writeImmed ==> device == old(device) && changes == old(changes) + [Change(pos, data)]
      ensures FsChanged() <==> writeImmed || changes != [] || old(didChange)
    {
      hide Patched;
      PatchedBytes(View(), pos, data);
      if writeImmed {
        didChange := true;
        device := Patched(device, Change(pos, data));
        return;
      }
      AppliedAppend(device, changes, Change(pos, data));
      changes := changes + [Change(pos, data)];
    }

    /** fs_changed. */
    predicate FsChanged()
      reads this
    {
      changes != [] || didChange
    }

    /** fs_flush: afterwards the device holds what the program saw. */
    method FsFlush()
      modifies this
      ensures changes == [] && device == old(View()) && View() == old(View()) && didChange == old(didChange)
    {
      hide Patched;
      while changes != []
        invariant View() == old(View()) && didChange == old(didChange)
        decreases |changes|
      {
        AppliedFirst(device, changes);
        var first := changes[0];
        changes := changes[1..];
        device := Patched(device, first);
      }
    }

    /** fs_close: the changes reach the device, or none of them does. */
    method FsClose(write: bool) returns (changed: bool)
      modifies this
      ensures changed == old(FsChanged())
      ensures changes == [] && device == if write then old(View()) else old(device)
    {
      changed := changes != [];
      if write {
        FsFlush();
      } else {
        while changes != []
          invariant device == old(device) && didChange == old(didChange)
          decreases |changes|
        {
          changes := changes[1..];
        }
      }
      changed := changed || didChange;
    }
  }

  // ----- whole runs -----

  datatype Op = Write(pos: nat, data: seq<bv8>) | Read(pos: nat, size: nat)

  /** No read goes beyond the device. */
  predicate AllInside(limit: nat, ops: seq<Op>) {
    forall i :: 0 <= i < |ops| && ops[i].Read? ==> ops[i].pos + ops[i].size <= limit
  }

  /** What the reads of a run give on a plain byte array. */
  function PlainRun(image: seq<bv8>, ops: seq<Op>): (r: seq<seq<bv8>>)
    requires AllInside(|image|, ops)
    decreases |ops|
  {
    if ops == [] then []
    else match ops[0]
      case Write(pos, data) => PlainRun(Patched(image, Change(pos, data)), ops[1..])
      case Read(pos, size) => [image[pos..pos + size]] + PlainRun(image, ops[1..])
  }

  function FinalImage(image: seq<bv8>, ops: seq<Op>): seq<bv8>
    decreases |ops|
  {
    if ops == [] then image
    else match ops[0]
      case Write(pos, data) => FinalImage(Patched(image, Change(pos, data)), ops[1..])
      case Read(pos, size) => FinalImage(image, ops[1..])
  }

  /** Any run of writes and reads on the change list, closed with or without writing: the reads are
      those of the plain array, and the device ends as that array or as it was. The program dies
      exactly at a read behind the end of the device, and then the device is as it was. */
  method Run(disk: Disk, ops: seq<Op>, write: bool) returns (died: bool, results: seq<seq<bv8>>)
    requires disk.Valid() && !disk.writeImmed && disk.changes == []
    modifies disk
    ensures died <==> !AllInside(|old(disk.device)|, ops)
    ensures !died ==> results == PlainRun(old(disk.device), ops)
    ensures disk.device == if write && !died then FinalImage(old(disk.device), ops) else old(disk.device)
  {
    hide Patched, Applied;
    results := [];
    ghost var device := disk.device;
    var k := 0;
    assert ops[0..] == ops;
    NothingApplied(device);
    while k < |ops|
      invariant 0 <= k <= |ops| && disk.Valid() && disk.device == device && |device| <= |disk.View()|
      invariant AllInside(|device|, ops[..k])
      invariant AllInside(|device|, ops) ==>
        results + PlainRun(disk.View(), ops[k..]) == PlainRun(device, ops)
      invariant FinalImage(disk.View(), ops[k..]) == FinalImage(device, ops)
    {
      assert ops[k..][1..] == ops[k + 1..];
      match ops[k] {
        case Write(pos, data) =>
          disk.FsWrite(pos, data);
        case Read(pos, size) =>
          var ok, data := disk.FsRead(pos, size);
          if !ok {
            return true, results;
          }
          results := results + [data[..]];
      }
      k := k + 1;
    }
    assert ops[..k] == ops;
    var changed := disk.FsClose(write);
    return false, results;
  }
}
