/**
 * The output side of the encoder: the append-only GDF file and the vocabulary in
 * which every writer's effect is specified. A writer either completes, or raises a
 * Python exception after having written some prefix of its bytes; an `Emission`
 * records both the bytes that reached the file and how the writer ended.
 */
module Sink {
  import opened Bytes

  /** The exceptions the encoder can raise. */
  datatype Fault =
    | NotAscii       // str.encode('ascii') of a non-ASCII character
    | OutOfRange     // struct.pack('i' or 'B', v) with v outside the integer type
    | ZeroDivision   // int(size / max_cell_size) with max_cell_size == 0
    | ItemCount      // struct.pack('<n>d', ...) given a number of values other than n
    | NoName         // write_string(None): a field name with no GDF name
    | BadValue       // int() of a malformed string, min() of an empty sequence
    | BadTimestamp   // a creation date that does not parse
    | UndefinedName  // a reference to a name that is not defined
    | MissingRecord  // a record the species does not hold

  datatype Status = Ok | Raised(fault: Fault)

  /** The bytes a writer appends, and whether it completed. */
  datatype Emission = Emission(out: seq<byte>, status: Status)

  function Done(out: seq<byte>): Emission {
    Emission(out, Ok)
  }

  function Fail(fault: Fault): Emission {
    Emission([], Raised(fault))
  }

  /** Running a and then, if a completed, b: an exception stops everything after it. */
  function Then(a: Emission, b: Emission): Emission
  {
    if a.status.Raised? then a else Emission(a.out + b.out, b.status)
  }

  /** Appending what a writer emitted after what a writer before it emitted. */
  lemma Appended(start: seq<byte>, done: Emission, next: Emission)
    requires done.status == Ok
    ensures start + Then(done, next).out == (start + done.out) + next.out
  {
    assert start + (done.out + next.out) == (start + done.out) + next.out;
  }

  /** A loop writing one block per element, in order; a block that raises ends the loop. */
  function Blocks<C>(block: C -> Emission, cs: seq<C>): Emission {
    if cs == [] then Done([]) else Then(Blocks(block, cs[..|cs| - 1]), block(cs[|cs| - 1]))
  }

  lemma BlocksSnoc<C>(block: C -> Emission, cs: seq<C>, k: nat)
    requires k < |cs|
    ensures Blocks(block, cs[..k + 1]) == Then(Blocks(block, cs[..k]), block(cs[k]))
  {
    assert cs[..k + 1][..k] == cs[..k];
  }

  /** Once a block has raised, the elements after it write nothing. */
  lemma {:induction false} BlocksStopAtRaise<C>(block: C -> Emission, cs: seq<C>, k: nat)
    requires k <= |cs| && Blocks(block, cs[..k]).status.Raised?
    ensures Blocks(block, cs) == Blocks(block, cs[..k])
    decreases |cs| - k
  {
    if k < |cs| {
      BlocksSnoc(block, cs, k);
      BlocksStopAtRaise(block, cs, k + 1);
    } else {
      assert cs[..k] == cs;
    }
  }

  /** A loop body that writes its block only for the elements it keeps. */
  function Guarded<C>(keep: C -> bool, block: C -> Emission): C -> Emission {
    (c: C) => if keep(c) then block(c) else Done([])
  }

  /** The kept elements, in order. */
  function Filter<C>(keep: C -> bool, cs: seq<C>): (r: seq<C>)
    ensures |r| <= |cs|
  {
    if cs == [] then []
    else
      var init, last := cs[..|cs| - 1], cs[|cs| - 1];
      Filter(keep, init) + (if keep(last) then [last] else [])
  }

  lemma {:induction false} FilterMembers<C>(keep: C -> bool, cs: seq<C>, x: C)
    ensures x in Filter(keep, cs) <==> x in cs && keep(x)
  {
    if cs != [] {
      var init := cs[..|cs| - 1];
      FilterMembers(keep, init, x);
      assert cs == init + [cs[|cs| - 1]];
    }
  }

  /** Skipping the elements a loop does not keep is writing the kept elements one after another. */
  lemma {:induction false} GuardedBlocks<C>(keep: C -> bool, block: C -> Emission, cs: seq<C>)
    ensures Blocks(Guarded(keep, block), cs) == Blocks(block, Filter(keep, cs))
  {
    if cs != [] {
      var init, last := cs[..|cs| - 1], cs[|cs| - 1];
      GuardedBlocks(keep, block, init);
      if keep(last) {
        var kept := Filter(keep, cs);
        assert kept[..|kept| - 1] == Filter(keep, init);
      } else {
        var x := Blocks(Guarded(keep, block), init);
        assert Guarded(keep, block)(last) == Done([]);
        assert x.out + [] == x.out;
        assert Then(x, Done([])) == x;
        assert Filter(keep, init) + [] == Filter(keep, init);
        assert Filter(keep, cs) == Filter(keep, init);
      }
    }
  }

  /** The output file, opened for binary writing: it only ever grows at its end. */
  class GdfFile {
    var bytes: seq<byte>

    constructor ()
      ensures bytes == []
    {
      bytes := [];
    }

    /** `gdf_file.write(b)`. */
    method Write(b: seq<byte>)
      modifies this
      ensures bytes == old(bytes) + b
    {
      bytes := bytes + b;
    }
  }
}
