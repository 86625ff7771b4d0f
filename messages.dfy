/**
 * Chat turns as the chat action's argument validator admits them: a role that is one
 * of three literals, and a text content.
 */
module Messages {
  import opened Wrappers

  datatype Role = User | Assistant | System {
    /** The literal that stands for the role on the wire. */
    function Name(): string {
      match this
      case User => "user"
      case Assistant => "assistant"
      case System => "system"
    }
  }

  datatype Turn = Turn(role: Role, content: string)

  /** The role validator: a union of the three literals; any other string is rejected. */
  function ParseRole(s: string): Option<Role> {
    if s == "user" then Some(User)
    else if s == "assistant" then Some(Assistant)
    else if s == "system" then Some(System)
    else None
  }

  /** Every role passes the validator as its own literal. */
  lemma ParseRoleName(r: Role)
    ensures ParseRole(r.Name()) == Some(r)
  {
    match r
    case User =>
    case Assistant =>
      assert "assistant"[0] != "user"[0];
    case System =>
      assert "system"[0] != "user"[0];
      assert "system"[0] != "assistant"[0];
  }

  /** The validator accepts exactly the three literals, each as its own role. */
  lemma ParseRoleOnlyNames(s: string, r: Role)
    requires ParseRole(s) == Some(r)
    ensures s == r.Name()
    ensures s == "user" || s == "assistant" || s == "system"
  {
  }

  /** The outcome of one call of the chat action: the assistant's text, which the
      model may leave absent, or an exception. */
  datatype ChatOutcome = Replied(content: Option<string>) | Threw
}
