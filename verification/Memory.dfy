/**
 Target RAM as the RTT code uses it: byte cells for the ring buffers, and aligned 32-bit words for the offsets of the
 control block, which the host and the firmware each read and write in one access.
 */
module Memory {
  import opened Bytes

  type Cells = nat -> byte

  datatype Ram = Ram(words: nat -> nat, cells: Cells)

  function PokeWord(ram: Ram, a: nat, v: nat): (r: Ram)
    ensures r.words(a) == v && r.cells == ram.cells
    ensures forall b :: b != a ==> r.words(b) == ram.words(b)
  {
    var words := ram.words;
    Ram((b: nat) => if b == a then v else words(b), ram.cells)
  }

  function PokeByte(ram: Ram, a: nat, v: byte): (r: Ram)
    ensures r.cells(a) == v && r.words == ram.words
    ensures forall b :: b != a ==> r.cells(b) == ram.cells(b)
  {
    var cells := ram.cells;
    Ram(ram.words, (b: nat) => if b == a then v else cells(b))
  }
}
