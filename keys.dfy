/** The keyboard handler: arrow keys set the direction, every other key is ignored. */
module Keys {
  import opened Board

  /** The `event.key` value of the arrow key that selects direction `d`. */
  function KeyName(d: Direction): string
  {
    match d
    case Left => "ArrowLeft"
    case Right => "ArrowRight"
    case Up => "ArrowUp"
    case Down => "ArrowDown"
  }

  /** The direction after a key press with `key`, starting from `current`. An
      arrow key selects its own direction whatever `current` is (there is no
      check against reversing), and any other key leaves `current` as it was. */
  function OnKey(key: string, current: Direction): (d: Direction)
    ensures forall e :: key == KeyName(e) ==> d == e
    ensures (forall e :: key != KeyName(e)) ==> d == current
  {
    if key == KeyName(Left) then Left
    else if key == KeyName(Right) then Right
    else if key == KeyName(Up) then Up
    else if key == KeyName(Down) then Down
    else current
  }
}
