/**
 * Parser context (stilts-lang/src/state.rs): the delimiter pair, shared
 * between clones through a reference-counted container, and the bit flags
 * saying which constructs are legal where the parser stands.
 */
module State {

  /** The reference-counted container behind `Delims`; its strings never change. */
  class DelimContainer {
    const open: string
    const close: string

    constructor (open: string, close: string)
      ensures this.open == open && this.close == close
    {
      this.open := open;
      this.close := close;
    }
  }

  /** `Delims` is a handle on a shared container; copying it copies the handle. */
  datatype Delims = Delims(container: DelimContainer) {
    function Open(): string { container.open }
    function Close(): string { container.close }
  }

  /** `Delims::new`: a fresh container holding exactly the given strings. */
  method NewDelims(open: string, close: string) returns (d: Delims)
    ensures fresh(d.container)
    ensures d.Open() == open && d.Close() == close
  {
    var c := new DelimContainer(open, close);
    d := Delims(c);
  }

  /** `Delims::default`: `{%` opens a construct and `%}` closes it. */
  method DefaultDelims() returns (d: Delims)
    ensures d.Open() == "{%" && d.Close() == "%}"
  {
    var c := new DelimContainer("{%", "%}");
    d := Delims(c);
  }

  /** A clone shares the container, so it reports the same strings. */
  lemma CloneSharesContainer(d: Delims, clone: Delims)
    requires clone.container == d.container
    ensures clone.Open() == d.Open() && clone.Close() == d.Close()
  {
  }

  /** The `State` flags, a `u8` bit set. */
  type Flags = bv8

  const AllowBlock: Flags := 0x04
  const AllowExtend: Flags := 0x02
  const AllowSuperCall: Flags := 0x01

  predicate Contains(s: Flags, flag: Flags) { s & flag == flag }

  /** A flag is one single bit. */
  predicate SingleBit(f: Flags) { f != 0 && f & (f - 1) == 0 }

  /** The three flags are single bits, pairwise disjoint. */
  lemma FlagsAreDistinctBits()
    ensures SingleBit(AllowBlock) && SingleBit(AllowExtend) && SingleBit(AllowSuperCall)
    ensures AllowBlock & AllowExtend == 0 && AllowBlock & AllowSuperCall == 0
    ensures AllowExtend & AllowSuperCall == 0
  {
  }

  /** `State::default`: blocks and `extends` are allowed, `super()` is not. */
  function DefaultFlags(): (s: Flags)
    ensures Contains(s, AllowBlock) && Contains(s, AllowExtend)
    ensures !Contains(s, AllowSuperCall)
    ensures s & !(AllowBlock | AllowExtend) == 0
  {
    AllowBlock | AllowExtend
  }
}
