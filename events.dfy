/** The event kinds the IRC layer produces and the channel history stores. The enumeration's own
    file is not part of this model; these are the members the modelled code names. */
module Events {
  import opened Wrappers

  datatype EventType = Message | Action | Join | Part | Kick | Nick | Quit | Topic | Other

  /** The member's `name`, as stored in the history records. */
  function Name(t: EventType): string
  {
    match t
    case Message => "message"
    case Action => "action"
    case Join => "join"
    case Part => "part"
    case Kick => "kick"
    case Nick => "nick"
    case Quit => "quit"
    case Topic => "topic"
    case Other => "other"
  }

  /** `getattr(EventType, name)`: the member called `name`, if there is one. */
  function FromName(name: string): (r: Option<EventType>)
    ensures r.Some? ==> Name(r.value) == name
  {
    if name == "message" then Some(Message)
    else if name == "action" then Some(Action)
    else if name == "join" then Some(Join)
    else if name == "part" then Some(Part)
    else if name == "kick" then Some(Kick)
    else if name == "nick" then Some(Nick)
    else if name == "quit" then Some(Quit)
    else if name == "topic" then Some(Topic)
    else if name == "other" then Some(Other)
    else None
  }

  lemma FromNameOfName(t: EventType)
    ensures FromName(Name(t)) == Some(t)
  {
  }
}
