/**
  The conversation page of admin-dashboard/src/pages/Messages.tsx: the
  contact search and the local message thread.  The contacts and the first
  seven messages are the page's own sample data; the send time, which the
  page formats with the browser's locale, is the parameter `clock`.
*/
module MessagesPage {
  import opened Wrappers
  import opened Seqs
  import opened Text

  datatype ContactStatus = Online | Offline | Away

  datatype Contact = Contact(id: int, name: string, avatar: string, status: ContactStatus)

  datatype Message = Message(id: int, senderId: int, recipientId: int, text: string, timestamp: string, read: bool)

  /** The signed-in user's id in the thread. */
  const CurrentUser := 0

  function SampleContacts(): seq<Contact>
  {
    [ Contact(1, "Sarah Williams", "S", Online),
      Contact(2, "Mike Johnson", "M", Offline),
      Contact(3, "Emily Chen", "E", Away),
      Contact(4, "Team Announcement", "T", Online) ]
  }

  /** The page's sample thread; long texts are written in pieces, which the verifier handles far more cheaply than one long literal. */
  function SeedMessages(): seq<Message>
  {
    [ Message(1, 1, 0, "Hey, are you available to cover my " + "shift tomorrow morning? I have a " + "doctor's appointment.", "10:30 AM", true),
      Message(2, 0, 1, "What time is the shift?", "10:35 AM", true),
      Message(3, 1, 0, "It's from 8 AM to 2 PM. I know it's " + "early, but I really need the help.", "10:36 AM", true),
      Message(4, 0, 1, "Let me check my schedule. I think I can " + "do it.", "10:40 AM", true),
      Message(5, 1, 0, "That would be really great! Thank you " + "so much!", "10:41 AM", true),
      Message(6, 1, 0, "I just checked with the manager and " + "they approved the swap. Can you confirm " + "it works for you?", "11:15 AM", false),
      Message(7, 1, 0, "I'll owe you one! Let me know if you " + "need anything in the future. \U{1F60A}", "11:16 AM", false) ]
  }

  // ---------------------------------------------------------------------
  // Contact search

  function NameMatches(query: string): Contact -> bool
  {
    (c: Contact) => Contains(ToLower(c.name), ToLower(query))
  }

  /**
    `filteredContacts`: the contacts whose lower-cased name contains the
    lower-cased query, in their original order; an empty query keeps them all.
  */
  function FilteredContacts(contacts: seq<Contact>, query: string): (r: seq<Contact>)
    ensures forall c :: c in r <==> c in contacts && Contains(ToLower(c.name), ToLower(query))
    ensures IsSubsequence(r, contacts)
    ensures forall c :: multiset(r)[c] == if Contains(ToLower(c.name), ToLower(query)) then multiset(contacts)[c] else 0
    ensures query == "" ==> r == contacts
  {
    FilterMultiset(contacts, NameMatches(query));
    if query == "" then
      assert forall c :: c in contacts ==> NameMatches(query)(c) by {
        forall c | c in contacts ensures NameMatches(query)(c) {
          ContainsEmpty(ToLower(c.name));
        }
      }
      FilterKeepsAll(contacts, NameMatches(query));
      Filter(contacts, NameMatches(query))
    else
      Filter(contacts, NameMatches(query))
  }

  lemma ToLowerIdempotent(s: string)
    ensures ToLower(ToLower(s)) == ToLower(s)
  {
  }

  /** The search ignores the case of the query. */
  lemma {:induction false} SearchIgnoresCase(contacts: seq<Contact>, query: string)
    ensures FilteredContacts(contacts, ToLower(query)) == FilteredContacts(contacts, query)
  {
    ToLowerIdempotent(query);
    if contacts != [] {
      SearchIgnoresCase(contacts[1..], query);
      if query != "" && ToLower(query) != "" {
        assert FilteredContacts(contacts[1..], ToLower(query)) == Filter(contacts[1..], NameMatches(ToLower(query)));
      }
    }
  }

  // ---------------------------------------------------------------------
  // The thread

  /** Every message's id is its 1-based position in the thread. */
  predicate IdsArePositions(ms: seq<Message>)
  {
    forall i :: 0 <= i < |ms| ==> ms[i].id == i + 1
  }

  /** Ids that are positions never repeat. */
  lemma PositionsAreUnique(ms: seq<Message>, i: int, j: int)
    requires IdsArePositions(ms)
    requires 0 <= i < |ms| && 0 <= j < |ms| && i != j
    ensures ms[i].id != ms[j].id
  {
  }

  /** The sample thread is numbered 1 to 7. */
  lemma SeedIdsArePositions()
    ensures IdsArePositions(SeedMessages())
  {
    var ms := SeedMessages();
    assert |ms| == 7;
    assert ms[0].id == 1 && ms[1].id == 2 && ms[2].id == 3 && ms[3].id == 4;
    assert ms[4].id == 5 && ms[5].id == 6 && ms[6].id == 7;
  }

  class Messages {
    var selectedContact: Option<Contact>
    var messageText: string
    var searchQuery: string
    var messages: seq<Message>

    constructor ()
      ensures selectedContact == None && messageText == "" && searchQuery == ""
      ensures messages == SeedMessages() && IdsArePositions(messages)
    {
      selectedContact := None;
      messageText := "";
      searchQuery := "";
      messages := SeedMessages();
      SeedIdsArePositions();
    }

    method SelectContact(c: Contact)
      modifies this
      ensures selectedContact == Some(c)
      ensures messageText == old(messageText) && searchQuery == old(searchQuery) && messages == old(messages)
    {
      selectedContact := Some(c);
    }

    method SetMessageText(text: string)
      modifies this
      ensures messageText == text
      ensures selectedContact == old(selectedContact) && searchQuery == old(searchQuery) && messages == old(messages)
    {
      messageText := text;
    }

    method SetSearchQuery(query: string)
      modifies this
      ensures searchQuery == query
      ensures selectedContact == old(selectedContact) && messageText == old(messageText) && messages == old(messages)
    {
      searchQuery := query;
    }

    /**
      `handleSendMessage`: with a non-blank text and a selected contact,
      appends one message from the current user to that contact, numbered
      one past the thread's length, holding the text as typed, and clears
      the input; otherwise nothing changes.  Ids stay positions.
    */
    method HandleSendMessage(clock: string)
      modifies this
      ensures var sends := !IsBlank(old(messageText)) && old(selectedContact).Some?;
        (sends ==>
          messages == old(messages) + [Message(|old(messages)| + 1, CurrentUser, old(selectedContact).value.id, old(messageText), clock, true)] &&
          messageText == "") &&
        (!sends ==> messages == old(messages) && messageText == old(messageText))
      ensures old(IdsArePositions(messages)) ==> IdsArePositions(messages)
      ensures selectedContact == old(selectedContact) && searchQuery == old(searchQuery)
    {
      TrimEmptyIffBlank(messageText);
      if Trim(messageText) != "" && selectedContact.Some? {
        var newMessage := Message(|messages| + 1, CurrentUser, selectedContact.value.id, messageText, clock, true);
        messages := messages + [newMessage];
        messageText := "";
      }
    }

    /** `handleKeyPress`: Enter without Shift sends; any other key, or Shift+Enter, changes nothing. */
    method HandleKeyPress(key: string, shiftKey: bool, clock: string)
      modifies this
      ensures var sends := key == "Enter" && !shiftKey && !IsBlank(old(messageText)) && old(selectedContact).Some?;
        (sends ==>
          messages == old(messages) + [Message(|old(messages)| + 1, CurrentUser, old(selectedContact).value.id, old(messageText), clock, true)] &&
          messageText == "") &&
        (!sends ==> messages == old(messages) && messageText == old(messageText))
      ensures selectedContact == old(selectedContact) && searchQuery == old(searchQuery)
    {
      if key == "Enter" && !shiftKey {
        HandleSendMessage(clock);
      }
    }
  }
}
