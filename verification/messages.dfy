/**
 * The closed `Message` hierarchy of plugins/WebSocket.kt. Each variant is
 * serialised with a type tag; the wire encoding itself belongs to the
 * serialisation library and is not modelled, only the tags are.
 */
module Messages {
  import opened Wrappers
  import opened Board

  datatype Message =
    | RegisterWs(id: string)
    | GameCreated(id: string)
    | FoundSecondPlayer(id: string)
    | TurnMade(field: Grid)
    | GameEnded(playerWon: string)

  /** The five variants, without their payloads. */
  datatype Kind = Register | Created | SecondPlayer | Turn | Ended

  function KindOf(m: Message): Kind {
    match m
    case RegisterWs(_) => Register
    case GameCreated(_) => Created
    case FoundSecondPlayer(_) => SecondPlayer
    case TurnMade(_) => Turn
    case GameEnded(_) => Ended
  }

  /** The variant a serial-name tag selects; an unknown tag selects none. */
  function KindOfTag(tag: string): Option<Kind> {
    if tag == "register" then Some(Register)
    else if tag == "game_created" then Some(Created)
    else if tag == "found_second_player" then Some(SecondPlayer)
    else if tag == "turn_made" then Some(Turn)
    else if tag == "game_ended" then Some(Ended)
    else None
  }

  /** The serial name each variant is tagged with. */
  function Tag(m: Message): (tag: string)
    ensures KindOfTag(tag) == Some(KindOf(m))
  {
    match m
    case RegisterWs(_) => "register"
    case GameCreated(_) => "game_created"
    case FoundSecondPlayer(_) => "found_second_player"
    case TurnMade(_) => "turn_made"
    case GameEnded(_) => "game_ended"
  }

  /** Two messages carry the same tag exactly when they are the same variant. */
  lemma TagsDistinguishVariants(m1: Message, m2: Message)
    ensures Tag(m1) == Tag(m2) <==> KindOf(m1) == KindOf(m2)
  {
    if Tag(m1) == Tag(m2) {
      assert KindOfTag(Tag(m1)) == KindOfTag(Tag(m2));
    }
  }

  /** Every variant has a tag, and there are exactly five. */
  lemma ExactlyFiveTags(tag: string)
    ensures KindOfTag(tag).Some? <==>
      tag in ["register", "game_created", "found_second_player", "turn_made", "game_ended"]
  {
  }
}
