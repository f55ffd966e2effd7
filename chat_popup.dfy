/*
 * The chat widget of src/components/poll/ChatPopup.tsx: a toggled window, an
 * input whose trimmed text is sent, and an unread counter kept against the
 * number of messages seen when the window was last open.
 */
module ChatPopupWidget {
  import opened PollTypes
  import opened Text
  import opened SessionRules
  import opened PollProvider

  /** The badge on the toggle button: hidden at zero, "99+" past ninety-nine, the count otherwise. */
  function BadgeLabel(unread: nat): (badge: Option<string>)
    ensures badge.None? <==> unread == 0
    ensures badge == Some("99+") <==> unread > 99
    ensures 0 < unread <= 99 ==> badge == Some(Decimal(unread))
  {
    if unread == 0 then None
    else if unread > 99 then Some("99+")
    else Some(Decimal(unread))
  }

  /** A numeric badge reads back as the unread count, in at most two digits. */
  lemma BadgeReadsBack(unread: nat)
    requires 0 < unread <= 99
    ensures BadgeLabel(unread).Some? && |BadgeLabel(unread).value| <= 2
    ensures DecimalValue(BadgeLabel(unread).value) == unread
  {
    DecimalRoundTrip(unread);
    if unread >= 10 {
      assert Decimal(unread) == Decimal(unread / 10) + [DigitChar(unread % 10)];
    }
  }

  class ChatPopup {
    const userType: SenderType
    const userName: string
    var isOpen: bool
    /** The input's text. */
    var message: string
    var unreadCount: nat
    /** The `lastSeenMessageCount` ref. */
    var lastSeen: nat

    constructor (userType: SenderType, userName: string)
      ensures this.userType == userType && this.userName == userName
      ensures !isOpen && message == "" && unreadCount == 0 && lastSeen == 0
    {
      this.userType := userType;
      this.userName := userName;
      isOpen := false;
      message := "";
      unreadCount := 0;
      lastSeen := 0;
    }

    /** The input's `onChange`. */
    method Edit(text: string)
      modifies this
      ensures message == text
      ensures isOpen == old(isOpen) && unreadCount == old(unreadCount) && lastSeen == old(lastSeen)
    {
      message := text;
    }

    /** `toggleChat` */
    method Toggle()
      modifies this
      ensures isOpen == !old(isOpen)
      ensures message == old(message) && unreadCount == old(unreadCount) && lastSeen == old(lastSeen)
    {
      isOpen := !isOpen;
    }

    /** The window's close button. */
    method Close()
      modifies this
      ensures !isOpen
      ensures message == old(message) && unreadCount == old(unreadCount) && lastSeen == old(lastSeen)
    {
      isOpen := false;
    }

    /**
     * The two effects that run, in declaration order, after a render with
     * `count` messages: while closed, messages beyond those last seen become
     * unread; while open, every message is seen and nothing is unread.
     */
    method Sync(count: nat)
      modifies this
      ensures !isOpen && count > old(lastSeen) ==> unreadCount == count - old(lastSeen)
      ensures !isOpen && count <= old(lastSeen) ==> unreadCount == old(unreadCount)
      ensures !isOpen ==> lastSeen == old(lastSeen)
      ensures isOpen ==> lastSeen == count && unreadCount == 0
      ensures isOpen == old(isOpen) && message == old(message)
    {
      if !isOpen && count > lastSeen {
        unreadCount := count - lastSeen;
      }
      if isOpen {
        lastSeen := count;
        unreadCount := 0;
      }
    }

    /**
     * `handleSendMessage`: a blank input sends nothing; otherwise the trimmed
     * text goes out under this user's role and name and the input is
     * cleared. No length is checked on this path.
     */
    method HandleSend(session: PollSession, now: nat, suffix: string) returns (sent: bool)
      modifies this, session
      ensures sent <==> !AllWhitespace(old(message))
      ensures sent ==>
        && session.state == old(session.state).(chatMessages := old(session.state).chatMessages
             + [NewChatMessage(Trim(old(message)), userType, userName, now, suffix)])
        && session.Synced()
        && message == ""
      ensures !sent ==>
        && session.state == old(session.state) && session.storage == old(session.storage)
        && message == old(message)
      ensures session.tabStudentId == old(session.tabStudentId)
      ensures session.tabStudentName == old(session.tabStudentName)
      ensures session.announced == old(session.announced) + if sent then 1 else 0
      ensures isOpen == old(isOpen) && unreadCount == old(unreadCount) && lastSeen == old(lastSeen)
    {
      TrimEmptyIff(message);
      var text := Trim(message);
      if text != [] {
        session.SendChatMessage(text, userType, userName, now, suffix);
        message := "";
        sent := true;
      } else {
        sent := false;
      }
    }
  }
}
