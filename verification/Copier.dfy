/**
 The reference the pipeline is held against: copy one block at a time, from the pool to the file,
 with no queue, credit or batch at all.
 */
module Copier {
  import opened Cursors

  /** The address a file write is given: the one buffer of do_io_io_uring, or the wr_id of a read. */
  datatype Source = DataBuffer | Memory(addr: nat)

  /** One file write of one block. */
  datatype Write = Write(source: Source, fileOffset: nat)

  /** Sizes, and the two addresses of a block's memory: reads place it behind `poolAddr` (data_pool),
      their wr_id names it behind `rmtAddr` (rmt_buf.addr). */
  datatype Geometry = Geometry(bs: nat, poolSize: nat, fileSize: nat, poolAddr: nat, rmtAddr: nat) {
    predicate Valid() {
      0 < bs
    }
  }

  datatype Copier = Copier(poolCursor: nat, fileCursor: nat, log: seq<Write>)

  function CopyBlock(c: Copier, g: Geometry): Copier {
    Copier(Advance(c.poolCursor, g.bs, g.poolSize),
           Advance(c.fileCursor, g.bs, g.fileSize),
           c.log + [Write(Memory(g.rmtAddr + c.poolCursor), c.fileCursor)])
  }

  function Copy(n: nat, g: Geometry): Copier {
    if n == 0 then Copier(0, 0, []) else CopyBlock(Copy(n - 1, g), g)
  }

  /** The k-th block goes from pool slot k mod Pp to file block k mod Pf. */
  lemma {:induction false} CopyClosedForm(n: nat, g: Geometry)
    requires g.Valid()
    ensures Copy(n, g).poolCursor == After(n, g.bs, g.poolSize)
    ensures Copy(n, g).fileCursor == After(n, g.bs, g.fileSize)
    ensures |Copy(n, g).log| == n
    ensures forall k :: 0 <= k < n ==>
      Copy(n, g).log[k] ==
        Write(Memory(g.rmtAddr + g.bs * (k % Period(g.bs, g.poolSize))),
              g.bs * (k % Period(g.bs, g.fileSize)))
  {
    if n > 0 {
      CopyClosedForm(n - 1, g);
      CursorClosedForm(n - 1, g.bs, g.poolSize);
      CursorClosedForm(n - 1, g.bs, g.fileSize);
    }
  }

  /** Running the copier further only appends. */
  lemma {:induction false} CopyGrows(m: nat, n: nat, g: Geometry)
    requires m <= n
    ensures Copy(m, g).log <= Copy(n, g).log
    decreases n
  {
    if m < n {
      CopyGrows(m, n - 1, g);
    }
  }
}
