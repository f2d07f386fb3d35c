/**
  A numbered game piece ("Block" in game.js). Its value never changes; its
  mode moves between Base and Selected by toggling, and to Retired when a
  confirmed move takes it off the board, until the next game reset.
 */
module Pieces {

  datatype BlockMode = Base | Selected | Retired

  datatype Block = Block(value: int, mode: BlockMode)

  /** A fresh piece, as built at game start: piece i (0-based) carries value i+1. */
  function NewBlock(value: int): (b: Block)
    ensures b.value == value && !IsRetired(b) && !IsSelected(b)
  {
    Block(value, Base)
  }

  predicate IsRetired(b: Block) {
    b.mode == Retired
  }

  predicate IsSelected(b: Block) {
    b.mode == Selected
  }

  /** Swaps Base and Selected; a retired piece cannot be picked up again. */
  function ToggleSelected(b: Block): (r: Block)
    ensures r.value == b.value
    ensures IsRetired(r) <==> IsRetired(b)
    ensures IsRetired(b) ==> r == b
    ensures !IsRetired(b) ==> (IsSelected(r) <==> !IsSelected(b))
  {
    match b.mode
    case Base => b.(mode := Selected)
    case Selected => b.(mode := Base)
    case Retired => b
  }

  /** Toggling twice restores the piece, whatever its mode. */
  lemma ToggleTwice(b: Block)
    ensures ToggleSelected(ToggleSelected(b)) == b
  {
  }

  function ToRetired(b: Block): (r: Block)
    ensures r.value == b.value && IsRetired(r)
  {
    b.(mode := Retired)
  }

  function Reset(b: Block): (r: Block)
    ensures r.value == b.value && !IsRetired(r) && !IsSelected(r)
  {
    b.(mode := Base)
  }
}
