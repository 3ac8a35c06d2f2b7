/**
  The buffer object of the log search: the bodies of the lock sections on the shared fields, each proved
  equal to the ring operation the protocol steps use.
 */
module LogBuffer {
  import opened Rings
  import opened Sums

  datatype PutOutcome = MustWait | Refused | Stored
  datatype GetOutcome = MustWaitForLine | NoMoreLines | Line(line: string)

  class Buffer {
    const lines: array<string>
    var size: nat
    var head: nat
    var tail: nat
    var eof: bool

    ghost function AsRing(): Ring<string>
      reads this, lines
    {
      Ring(lines[..], head, tail, size)
    }

    ghost predicate Valid()
      reads this, lines
    {
      AsRing().Valid()
    }

    constructor (capacity: nat)
      requires capacity > 0
      ensures Valid() && fresh(lines) && AsRing().Capacity() == capacity && AsRing().Items() == [] && !eof
    {
      lines := new string[capacity];
      size, head, tail, eof := 0, 0, 0, false;
    }

    /** One pass of a put under the lock: wait, give up after eof, or append the line. */
    method TryPut(line: string) returns (outcome: PutOutcome)
      requires Valid()
      modifies this`tail, this`size, lines
      ensures Valid()
      ensures outcome.MustWait? <==> old(size) == lines.Length && !eof
      ensures outcome.Refused? <==> eof
      ensures outcome.Stored? ==> AsRing() == old(AsRing()).Push(line) && AsRing().Items() == old(AsRing().Items()) + [line]
      ensures !outcome.Stored? ==> AsRing() == old(AsRing())
    {
      if size == lines.Length && !eof { return MustWait; }
      if eof { return Refused; }
      PushAppends(AsRing(), line);
      lines[tail] := line;
      tail := (tail + 1) % lines.Length;
      size := size + 1;
      return Stored;
    }

    /** One pass of a get under the lock: wait, report the end, or take the oldest line. */
    method TryGet() returns (outcome: GetOutcome)
      requires Valid()
      modifies this`head, this`size
      ensures Valid()
      ensures outcome.MustWaitForLine? <==> old(size) == 0 && !eof
      ensures outcome.NoMoreLines? <==> old(size) == 0 && eof
      ensures outcome.Line? ==> AsRing() == old(AsRing()).Pop() && old(AsRing().Items()) == [outcome.line] + AsRing().Items()
      ensures !outcome.Line? ==> AsRing() == old(AsRing())
    {
      if size == 0 && !eof { return MustWaitForLine; }
      if size == 0 { return NoMoreLines; }
      PopTakesOldest(AsRing());
      var line := lines[head];
      head := (head + 1) % lines.Length;
      size := size - 1;
      return Line(line);
    }

    method SetEof()
      requires Valid()
      modifies this`eof
      ensures Valid() && eof
    {
      eof := true;
    }
  }

  /** The serial thread's loop over all workers' counts. */
  method TotalMatches(matches: seq<nat>) returns (total: nat)
    ensures total == Sum(matches, (m: nat) => m)
  {
    total := 0;
    for i := 0 to |matches|
      invariant total == Sum(matches[..i], (m: nat) => m)
    {
      assert matches[..i + 1][..i] == matches[..i];
      total := total + matches[i];
    }
    assert matches[..|matches|] == matches;
  }
}
