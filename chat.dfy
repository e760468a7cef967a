/**
 * The public chat view: the conversation held by the chat interface, the
 * search it runs for each message, and the input box that guards sending.
 */
module Chat {
  import opened Text
  import opened Wrappers
  import opened Constants
  import opened Normalizer
  import opened Matcher

  datatype Sender = User | Bot

  datatype Message = Message(sender: Sender, text: string)

  const GREETING: string :=
    "Hello! I am the VIP Registry Assistant. How can I help you today? \n\nPlease ask me about a VIP by name."

  /**
   * The bot's answer to `userInput`: the not-found text exactly when no
   * record's normalized name scores above 0.4 against the normalized input,
   * and otherwise the answer about the record at the first index with the
   * highest score.
   */
  function SearchReply(userInput: string, vips: seq<Vip>): (r: string)
    ensures r == NOT_FOUND <==> forall k :: 0 <= k < |vips| ==> ScoreOf(Normalize(userInput), vips[k]) <= THRESHOLD
    ensures r != NOT_FOUND ==> exists k :: IsFirstBest(Normalize(userInput), vips, k) && r == Reply(Some(vips[k]))
  {
    Reply(BestMatch(Normalize(userInput), vips))
  }

  /** The chat interface: its conversation and whether a search is in progress. */
  class ChatInterface {
    const vips: seq<Vip>
    var messages: seq<Message>
    var isProcessing: bool

    /**
     * The conversation always opens with the bot's greeting, and while a
     * search is in progress the last message is the user's question.
     */
    predicate Valid()
      reads this
    {
      |messages| >= 1 && messages[0] == Message(Bot, GREETING)
      && (isProcessing ==> messages[|messages| - 1].sender == User)
    }

    constructor(vips: seq<Vip>)
      ensures Valid()
      ensures this.vips == vips && messages == [Message(Bot, GREETING)] && !isProcessing
    {
      this.vips := vips;
      messages := [Message(Bot, GREETING)];
      isProcessing := false;
    }

    /** `handleSendMessage`, synchronous part: show the user's message and start the search. */
    method HandleSendMessage(userInput: string)
      requires Valid()
      modifies this
      ensures Valid()
      ensures messages == old(messages) + [Message(User, userInput)]
      ensures isProcessing
    {
      messages := messages + [Message(User, userInput)];
      isProcessing := true;
    }

    /**
     * The delayed part of `handleSendMessage`: append the bot's reply to the
     * question being processed and end the search.
     */
    method SearchTimerFired(userInput: string)
      requires Valid()
      requires isProcessing && messages[|messages| - 1] == Message(User, userInput)
      modifies this
      ensures Valid()
      ensures messages == old(messages) + [Message(Bot, SearchReply(userInput, vips))]
      ensures !isProcessing
    {
      messages := messages + [Message(Bot, SearchReply(userInput, vips))];
      isProcessing := false;
    }
  }

  /**
   * The send guard of the input box: the input holds a non-whitespace
   * character and no search is in progress.
   */
  function CanSend(input: string, busy: bool): (r: bool)
    ensures r <==> !busy && exists k :: 0 <= k < |input| && !IsSpace(input[k])
  {
    TrimEmptyIff(input);
    Trim(input) != [] && !busy
  }

  /** The chat input box and the interface it sends to. */
  class ChatInput {
    const chat: ChatInterface
    var inputValue: string

    constructor(chat: ChatInterface)
      ensures this.chat == chat && inputValue == ""
    {
      this.chat := chat;
      inputValue := "";
    }

    /** The input's `onChange`. */
    method SetInput(value: string)
      modifies this
      ensures inputValue == value
    {
      inputValue := value;
    }

    /**
     * `handleSubmit`: when sending is allowed, the trimmed input goes to the
     * chat and the box is cleared; otherwise nothing changes.
     */
    method HandleSubmit()
      requires chat.Valid()
      modifies this, chat
      ensures chat.Valid()
      ensures CanSend(old(inputValue), old(chat.isProcessing)) ==>
        chat.messages == old(chat.messages) + [Message(User, Trim(old(inputValue)))]
        && chat.isProcessing && inputValue == ""
      ensures !CanSend(old(inputValue), old(chat.isProcessing)) ==>
        chat.messages == old(chat.messages) && chat.isProcessing == old(chat.isProcessing)
        && inputValue == old(inputValue)
    {
      if CanSend(inputValue, chat.isProcessing) {
        chat.HandleSendMessage(Trim(inputValue));
        inputValue := "";
      }
    }
  }
}
