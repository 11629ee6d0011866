/** Reed-Solomon blocks and interleaving in qrencode.c. */
module QrRaw {
  // The bytes of a symbol are cut into blocks, which are read out in turn, column by column
  // (section 8.6 of JIS X0510:2004).
  import opened Arithmetic
  import opened QrSpec
  import opened GF256
  import opened ReedSolomon
  import RsCoder

  // ----- column-major order -----

  /** Byte c of each row that is long enough, from the first row to the last. */
  function Column(rows: seq<seq<bv8>>, c: nat): seq<bv8> {
    if rows == [] then [] else (if c < |rows[0]| then [rows[0][c]] else []) + Column(rows[1..], c)
  }

  /** Columns c to end - 1, one after another. */
  function Columns(rows: seq<seq<bv8>>, c: nat, end: nat): seq<bv8>
    decreases end - c
  {
    if end <= c then [] else Column(rows, c) + Columns(rows, c + 1, end)
  }

  lemma {:induction false} ColumnFull(rows: seq<seq<bv8>>, c: nat)
    requires forall r :: 0 <= r < |rows| ==> c < |rows[r]|
    ensures |Column(rows, c)| == |rows| && forall r :: 0 <= r < |rows| ==> Column(rows, c)[r] == rows[r][c]
  {
    if rows != [] {
      var tail := rows[1..];
      ColumnFull(tail, c);
      forall r | 1 <= r < |rows| ensures Column(rows, c)[r] == rows[r][c] {
        assert tail[r - 1] == rows[r];
        assert Column(rows, c)[r] == Column(tail, c)[r - 1];
      }
    }
  }

  /** A column that only the rows from `short` on reach. */
  lemma {:induction false} ColumnPart(rows: seq<seq<bv8>>, c: nat, short: nat)
    requires short <= |rows|
    requires forall r :: 0 <= r < short ==> |rows[r]| <= c
    requires forall r :: short <= r < |rows| ==> c < |rows[r]|
    ensures |Column(rows, c)| == |rows| - short && forall r :: short <= r < |rows| ==> Column(rows, c)[r - short] == rows[r][c]
  {
    if short == 0 {
      ColumnFull(rows, c);
    } else {
      var tail := rows[1..];
      forall r | 0 <= r < |tail| ensures tail[r] == rows[r + 1] {
      }
      ColumnPart(tail, c, short - 1);
      assert Column(rows, c) == Column(tail, c);
      forall r | short <= r < |rows| ensures Column(rows, c)[r - short] == rows[r][c] {
        assert tail[r - 1] == rows[r];
      }
    }
  }

  lemma {:induction false} ColumnsFull(rows: seq<seq<bv8>>, c: nat, end: nat)
    requires c <= end && forall r :: 0 <= r < |rows| ==> end <= |rows[r]|
    ensures |Columns(rows, c, end)| == (end - c) * |rows|
    decreases end - c
  {
    hide Column;
    if c < end {
      ColumnFull(rows, c);
      ColumnsFull(rows, c + 1, end);
      MulStep(|rows|, end - c);
    } else {
      ZeroTimes(|rows|);
    }
  }

  lemma {:induction false} ColumnsAt(rows: seq<seq<bv8>>, c: nat, end: nat, col: nat, row: nat)
    requires c <= col < end && row < |rows| && forall r :: 0 <= r < |rows| ==> end <= |rows[r]|
    ensures 0 <= (col - c) * |rows| + row < |Columns(rows, c, end)|
    ensures Columns(rows, c, end)[(col - c) * |rows| + row] == rows[row][col]
    decreases end - c
  {
    hide Column;
    var n := |rows|;
    ColumnFull(rows, c);
    ColumnsFull(rows, c, end);
    ColumnsFull(rows, c + 1, end);
    if c < col {
      ColumnsAt(rows, c + 1, end, col, row);
      MulStep(n, col - c);
      assert Columns(rows, c, end)[(col - c) * n + row] == Columns(rows, c + 1, end)[(col - c - 1) * n + row];
    } else {
      ZeroTimes(n);
    }
  }

  lemma {:induction false} ColumnsSplit(rows: seq<seq<bv8>>, c: nat, mid: nat, end: nat)
    requires c <= mid <= end
    ensures Columns(rows, c, end) == Columns(rows, c, mid) + Columns(rows, mid, end)
    decreases mid - c
  {
    hide Column;
    if c < mid {
      ColumnsSplit(rows, c + 1, mid, end);
    }
  }

  // ----- blocks -----

  datatype RSblock = RSblock(data: seq<bv8>, ecc: seq<bv8>)

  /** b1 blocks of dl data bytes and then blocks of dl + 1, all with el parity bytes. */
  predicate Shaped(blocks: seq<RSblock>, b1: nat, dl: nat, el: nat) {
    && 1 <= b1 <= |blocks|
    && forall r :: 0 <= r < |blocks| ==> |blocks[r].data| == (if r < b1 then dl else dl + 1) && |blocks[r].ecc| == el
  }

  function DataRows(blocks: seq<RSblock>): (r: seq<seq<bv8>>)
    ensures |r| == |blocks| && forall i :: 0 <= i < |r| ==> r[i] == blocks[i].data
  {
    seq(|blocks|, i requires 0 <= i < |blocks| => blocks[i].data)
  }

  function EccRows(blocks: seq<RSblock>): (r: seq<seq<bv8>>)
    ensures |r| == |blocks| && forall i :: 0 <= i < |r| ==> r[i] == blocks[i].ecc
  {
    seq(|blocks|, i requires 0 <= i < |blocks| => blocks[i].ecc)
  }

  /** The order of section 8.6: data bytes by columns, and then parity bytes by columns. */
  function Interleaved(blocks: seq<RSblock>, dl: nat, el: nat): seq<bv8> {
    Columns(DataRows(blocks), 0, dl + 1) + Columns(EccRows(blocks), 0, el)
  }

  function DataTotal(blocks: seq<RSblock>, b1: nat, dl: nat): int {
    dl * |blocks| + (|blocks| - b1)
  }

  lemma DataColumns(blocks: seq<RSblock>, b1: nat, dl: nat, el: nat)
    requires Shaped(blocks, b1, dl, el)
    ensures Columns(DataRows(blocks), 0, dl + 1) == Columns(DataRows(blocks), 0, dl) + Column(DataRows(blocks), dl)
    ensures |Columns(DataRows(blocks), 0, dl)| == dl * |blocks| && |Column(DataRows(blocks), dl)| == |blocks| - b1
    ensures |Columns(DataRows(blocks), 0, dl + 1)| == DataTotal(blocks, b1, dl)
    ensures |Columns(EccRows(blocks), 0, el)| == el * |blocks|
  {
    hide Column;
    var rows := DataRows(blocks);
    ColumnsSplit(rows, 0, dl, dl + 1);
    assert Columns(rows, dl, dl + 1) == Column(rows, dl) + [];
    ColumnsFull(rows, 0, dl);
    ColumnPart(rows, dl, b1);
    ColumnsFull(EccRows(blocks), 0, el);
  }

  /** Where the data byte in column col of block row stands in the interleaved code. */
  function DataPosition(n: nat, b1: nat, dl: nat, row: nat, col: nat): int {
    col * n + (if col < dl then row else row - b1)
  }

  /** The data byte at each of the positions. */
  lemma DataAt(blocks: seq<RSblock>, b1: nat, dl: nat, el: nat, row: nat, col: nat)
    requires Shaped(blocks, b1, dl, el) && row < |blocks| && col < |blocks[row].data|
    ensures var k := DataPosition(|blocks|, b1, dl, row, col);
      0 <= k < DataTotal(blocks, b1, dl) <= |Interleaved(blocks, dl, el)| && Interleaved(blocks, dl, el)[k] == blocks[row].data[col]
  {
    hide Column, Columns;
    var rows, n := DataRows(blocks), |blocks|;
    DataColumns(blocks, b1, dl, el);
    if col < dl {
      ColumnsAt(rows, 0, dl, col, row);
    } else {
      ColumnPart(rows, dl, b1);
      assert Column(rows, dl)[row - b1] == rows[row][dl];
    }
  }

  lemma EccAt(blocks: seq<RSblock>, b1: nat, dl: nat, el: nat, row: nat, col: nat)
    requires Shaped(blocks, b1, dl, el) && row < |blocks| && col < el
    ensures var k := DataTotal(blocks, b1, dl) + col * |blocks| + row;
      0 <= k < |Interleaved(blocks, dl, el)| && Interleaved(blocks, dl, el)[k] == blocks[row].ecc[col]
  {
    hide Column, Columns;
    DataColumns(blocks, b1, dl, el);
    ColumnsAt(EccRows(blocks), 0, el, col, row);
  }

  /** A block and a column of it. */
  datatype Spot = Spot(row: nat, col: nat)

  /** Where getCode looks for data byte k. */
  function DataSpot(n: nat, b1: nat, dl: nat, k: nat): Spot
    requires 0 < n
  {
    Spot(k % n + (if k / n >= dl then b1 else 0), k / n)
  }

  /** getCode looks at every data byte of every block, each for one count. */
  lemma SpotsMatchPositions(n: nat, b1: nat, dl: nat, k: nat)
    requires 1 <= b1 <= n && k < dl * n + (n - b1)
    ensures var s := DataSpot(n, b1, dl, k);
      s.row < n && s.col <= dl && (s.col == dl ==> b1 <= s.row) && DataPosition(n, b1, dl, s.row, s.col) == k
  {
    var q, r := k / n, k % n;
    assert k == n * q + r && 0 <= r < n;
    if q > dl {
      MulMonotone(n, dl + 1, q);
    }
  }

  lemma PositionsMatchSpots(n: nat, b1: nat, dl: nat, row: nat, col: nat)
    requires 1 <= b1 <= n && row < n && col <= dl && (col == dl ==> b1 <= row)
    ensures var k := DataPosition(n, b1, dl, row, col);
      0 <= k < dl * n + (n - b1) && DataSpot(n, b1, dl, k) == Spot(row, col)
  {
    var r := if col < dl then row else row - b1;
    var k := DataPosition(n, b1, dl, row, col);
    assert k == n * col + r;
    Quotient(k, n, col, r);
    MulMonotone(n, col, dl);
    if col < dl {
      MulMonotone(n, col + 1, dl);
    }
  }

  /** The raw code of a symbol. */
  class QRRawCode {
    const dataLength: int
    const eccLength: int
    const b1: nat
    const blocks: seq<RSblock>
    var count: nat

    constructor (b1: nat, blocks: seq<RSblock>, dataLength: int, eccLength: int)
      ensures this.b1 == b1 && this.blocks == blocks && this.dataLength == dataLength && this.eccLength == eccLength
      ensures count == 0
    {
      this.b1, this.blocks, this.dataLength, this.eccLength := b1, blocks, dataLength, eccLength;
      count := 0;
    }

    predicate Valid(dl: nat, el: nat) {
      Shaped(blocks, b1, dl, el) && dataLength == DataTotal(blocks, b1, dl) && eccLength == el * |blocks|
    }

    /** QRraw_getCode: successive calls give the interleaved code byte by byte, and then zeros. */
    method GetCode(ghost dl: nat, ghost el: nat) returns (ret: bv8)
      requires Valid(dl, el)
      modifies this
      ensures var codes := Interleaved(blocks, dl, el);
        && |codes| == dataLength + eccLength
        && ret == (if old(count) < |codes| then codes[old(count)] else 0)
        && count == (if old(count) < |codes| then old(count) + 1 else old(count))
    {
      hide Interleaved, Shaped, DataTotal;
      var n := |blocks|;
      InterleavedLength(blocks, b1, dl, el);
      if count < dataLength {
        DataCode(blocks, b1, dl, el, count);
        var row, col := count % n, count / n;
        if col >= |blocks[0].data| {
          row := row + b1;
        }
        ret := blocks[row].data[col];
      } else if count < dataLength + eccLength {
        EccCode(blocks, b1, dl, el, count - dataLength);
        var row, col := (count - dataLength) % n, (count - dataLength) / n;
        ret := blocks[row].ecc[col];
      } else {
        return 0;
      }
      count := count + 1;
    }
  }

  lemma DataCode(blocks: seq<RSblock>, b1: nat, dl: nat, el: nat, k: nat)
    requires Shaped(blocks, b1, dl, el) && k < DataTotal(blocks, b1, dl)
    ensures 0 < |blocks| && |blocks[0].data| == dl && k < |Interleaved(blocks, dl, el)|
    ensures var s := DataSpot(|blocks|, b1, dl, k);
      s.row < |blocks| && s.col < |blocks[s.row].data| && Interleaved(blocks, dl, el)[k] == blocks[s.row].data[s.col]
  {
    hide Interleaved, DataPosition, Shaped, DataTotal, DataSpot;
    var n := |blocks|;
    ShapeFacts(blocks, b1, dl, el);
    SpotsMatchPositions(n, b1, dl, k);
    var s := DataSpot(n, b1, dl, k);
    DataAt(blocks, b1, dl, el, s.row, s.col);
  }

  lemma ShapeFacts(blocks: seq<RSblock>, b1: nat, dl: nat, el: nat)
    requires Shaped(blocks, b1, dl, el)
    ensures 1 <= b1 <= |blocks| && DataTotal(blocks, b1, dl) == dl * |blocks| + (|blocks| - b1)
    ensures forall r :: 0 <= r < |blocks| ==> |blocks[r].data| == if r < b1 then dl else dl + 1
  {}

  lemma EccCode(blocks: seq<RSblock>, b1: nat, dl: nat, el: nat, k: nat)
    requires Shaped(blocks, b1, dl, el) && k < el * |blocks|
    ensures 0 < |blocks| && 0 <= DataTotal(blocks, b1, dl) && DataTotal(blocks, b1, dl) + k < |Interleaved(blocks, dl, el)|
    ensures var row, col := k % |blocks|, k / |blocks|;
      0 <= row < |blocks| && 0 <= col < |blocks[row].ecc|
      && Interleaved(blocks, dl, el)[DataTotal(blocks, b1, dl) + k] == blocks[row].ecc[col]
  {
    hide Interleaved;
    InterleavedLength(blocks, b1, dl, el);
    EccSpot(|blocks|, el, k);
    EccAt(blocks, b1, dl, el, k % |blocks|, k / |blocks|);
  }

  lemma InterleavedLength(blocks: seq<RSblock>, b1: nat, dl: nat, el: nat)
    requires Shaped(blocks, b1, dl, el)
    ensures |Interleaved(blocks, dl, el)| == DataTotal(blocks, b1, dl) + el * |blocks| && 0 <= el * |blocks|
    ensures 0 <= DataTotal(blocks, b1, dl)
  {
    hide Columns, Column;
    DataColumns(blocks, b1, dl, el);
  }

  lemma EccSpot(n: nat, el: nat, k: nat)
    requires 0 < n && k < el * n
    ensures k / n < el && k % n < n && (k / n) * n + k % n == k
  {
    var q := k / n;
    assert k == n * q + k % n;
    if el <= q {
      MulMonotone(n, el, q);
    }
  }

  /** A receiver that puts the codes back into blocks gets the blocks that were interleaved. */
  function Deinterleaved(codes: seq<bv8>, n: nat, b1: nat, dl: nat, el: nat): seq<RSblock>
    requires 1 <= b1 <= n && |codes| == dl * n + (n - b1) + el * n
  {
    seq(n, row requires 0 <= row < n =>
      RSblock(seq(if row < b1 then dl else dl + 1, col requires 0 <= col < if row < b1 then dl else dl + 1 =>
                PositionsMatchSpots(n, b1, dl, row, col); EccPosition(n, el, 0, 0); codes[DataPosition(n, b1, dl, row, col)]),
              seq(el, col requires 0 <= col < el => EccPosition(n, el, row, col); codes[dl * n + (n - b1) + col * n + row])))
  }

  lemma EccPosition(n: nat, el: nat, row: nat, col: nat)
    requires row < n
    ensures 0 <= el * n
    ensures col < el ==> 0 <= col * n + row < el * n
  {
    if col < el {
      MulMonotone(n, col + 1, el);
    }
  }

  lemma DeinterleaveUndoes(blocks: seq<RSblock>, b1: nat, dl: nat, el: nat)
    requires Shaped(blocks, b1, dl, el)
    ensures |Interleaved(blocks, dl, el)| == dl * |blocks| + (|blocks| - b1) + el * |blocks|
    ensures Deinterleaved(Interleaved(blocks, dl, el), |blocks|, b1, dl, el) == blocks
  {
    hide Columns, Column, Interleaved;
    InterleavedLength(blocks, b1, dl, el);
    var codes := Interleaved(blocks, dl, el);
    var back := Deinterleaved(codes, |blocks|, b1, dl, el);
    forall row | 0 <= row < |blocks| ensures back[row] == blocks[row] {
      var b := blocks[row];
      forall col | 0 <= col < |b.data| ensures back[row].data[col] == b.data[col] {
        DataAt(blocks, b1, dl, el, row, col);
      }
      forall col | 0 <= col < el ensures back[row].ecc[col] == b.ecc[col] {
        EccAt(blocks, b1, dl, el, row, col);
      }
      assert back[row].data == b.data && back[row].ecc == b.ecc;
    }
  }

  // ----- building the blocks -----

  function Joined(blocks: seq<RSblock>): seq<bv8> {
    if blocks == [] then [] else Joined(blocks[..|blocks| - 1]) + blocks[|blocks| - 1].data
  }

  lemma JoinedAppend(blocks: seq<RSblock>, b: RSblock)
    ensures Joined(blocks + [b]) == Joined(blocks) + b.data
  {
    assert (blocks + [b])[..|blocks|] == blocks;
  }

  /** Data and parity of a block form a Reed-Solomon code word. */
  ghost predicate Coded(b: RSblock, el: nat) {
    1 <= el && b.ecc == Parity(Generator(0, el), b.data) && IsCodeword(0, el, b.data + b.ecc)
  }

  /** RSblock_initBlock. */
  method InitBlock(rs: RsCoder.Rs, data: seq<bv8>) returns (b: RSblock)
    requires rs.Valid() && rs.fcr == 0 && 1 <= rs.nroots && |data| == ORDER - rs.nroots - rs.pad
    ensures b.data == data && |b.ecc| == rs.nroots && Coded(b, rs.nroots)
  {
    hide Generator, IsCodeword, RsCoder.Rs.Valid, Parity;
    var ecc := new bv8[rs.nroots];
    rs.Encode(data, ecc);
    b := RSblock(data, ecc[..]);
  }

  /** The inner loops of RSblock_init: `number` blocks of dl bytes from position dp on. */
  method InitBlocks(start: seq<RSblock>, data: seq<bv8>, dp: nat, number: nat, dl: nat, el: nat) returns (blocks: seq<RSblock>)
    requires 1 <= el && 1 <= dl && dl + el <= ORDER && dp + number * dl <= |data|
    requires Joined(start) == data[..dp]
    ensures |blocks| == |start| + number && blocks[..|start|] == start
    ensures Joined(blocks) == data[..dp + number * dl]
    ensures forall i :: |start| <= i < |blocks| ==> |blocks[i].data| == dl && |blocks[i].ecc| == el && Coded(blocks[i], el)
  {
    hide Generator, IsCodeword, Joined, RsCoder.Rs.Valid, Parity, Coded;
    ghost var end := dp + number * dl;
    RepeatedIs(number, dl);
    var rs := RsCoder.InitRsChar(0, el, ORDER - dl - el);
    var p := dp;
    blocks := start;
    for i := 0 to number
      invariant rs != null && rs.Valid() && rs.fcr == 0 && rs.nroots == el && rs.pad == ORDER - dl - el
      invariant dp <= p && p + Repeated(number - i, dl) == end
      invariant |blocks| == |start| + i && blocks[..|start|] == start
      invariant Joined(blocks) == data[..p]
      invariant forall k :: |start| <= k < |blocks| ==> |blocks[k].data| == dl && |blocks[k].ecc| == el && Coded(blocks[k], el)
    {
      var block := InitBlock(rs, data[p..p + dl]);
      JoinedAppend(blocks, block);
      assert data[..p + dl] == data[..p] + data[p..p + dl];
      blocks := blocks + [block];
      p := p + dl;
    }
  }

  /** k times dl, added up. */
  function Repeated(k: nat, dl: nat): nat {
    if k == 0 then 0 else dl + Repeated(k - 1, dl)
  }

  lemma {:induction false} RepeatedIs(k: nat, dl: nat)
    ensures Repeated(k, dl) == k * dl
  {
    if k > 0 {
      RepeatedIs(k - 1, dl);
      MulStep(dl, k);
    }
  }

  /** RSblock_init: the blocks that the tables prescribe, made of the data in order. */
  method InitRSblock(spec: EccSpec, data: seq<bv8>) returns (blocks: seq<RSblock>)
    requires 1 <= spec.count1 && 1 <= spec.data && 1 <= spec.ecc && spec.data + 1 + spec.ecc <= 255
    requires |data| == spec.count1 * spec.data + spec.count2 * (spec.data + 1)
    ensures |blocks| == spec.count1 + spec.count2 && Shaped(blocks, spec.count1, spec.data, spec.ecc)
    ensures Joined(blocks) == data
    ensures forall i :: 0 <= i < |blocks| ==> Coded(blocks[i], spec.ecc)
  {
    hide Coded, Joined, Shaped;
    NothingJoined();
    var first := spec.count1 * spec.data;
    var second := spec.count2 * (spec.data + 1);
    Nonnegative(spec.count2, spec.data + 1);
    assert data[..0] == [] && data[..|data|] == data;
    blocks := InitBlocks([], data, 0, spec.count1, spec.data, spec.ecc);
    if spec.count2 == 0 {
      ZeroTimes(spec.data + 1);
      TwoKinds(blocks, blocks, spec);
      return;
    }
    ghost var before := blocks;
    blocks := InitBlocks(blocks, data, first, spec.count2, spec.data + 1, spec.ecc);
    TwoKinds(before, blocks, spec);
  }

  lemma TwoKinds(first: seq<RSblock>, blocks: seq<RSblock>, spec: EccSpec)
    requires 1 <= |first| == spec.count1 && |blocks| == spec.count1 + spec.count2 && blocks[..|first|] == first
    requires forall i :: 0 <= i < |first| ==> |first[i].data| == spec.data && |first[i].ecc| == spec.ecc && Coded(first[i], spec.ecc)
    requires forall i :: |first| <= i < |blocks| ==> |blocks[i].data| == spec.data + 1 && |blocks[i].ecc| == spec.ecc && Coded(blocks[i], spec.ecc)
    ensures Shaped(blocks, spec.count1, spec.data, spec.ecc)
    ensures forall i :: 0 <= i < |blocks| ==> Coded(blocks[i], spec.ecc)
  {
    hide Coded;
    assert forall i :: 0 <= i < |first| ==> blocks[i] == blocks[..|first|][i];
  }

  lemma NothingJoined()
    ensures Joined([]) == []
  {}
}
