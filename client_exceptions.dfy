/**
 * EtagMismatchExceptionClient: the exception the browser client receives when a
 * write is rejected because the entity's etag changed. Its messages are fixed once by
 * whichever of the four constructors built it and are only read afterwards, so the
 * exception is a value: the detail message its constructor handed to Exception and
 * the private message field it assigned.
 */
module ClientExceptions {
  import opened Wrappers

  /** The class constant ETAG_MISMATCH_EXCEPTION_CLIENT. */
  const EtagMismatch: string := "Etag mismatch"

  /**
   * The cause passed to a constructor: its getMessage(), which may be null, and its
   * toString(), which Throwable(Throwable cause) takes as the detail message.
   */
  datatype Throwable = Throwable(message: Option<string>, rendered: string)

  /**
   * An exception: `detailMessage` is what Exception received through super(...),
   * `message` is the private field of the same name that the getters return.
   */
  datatype EtagMismatchExceptionClient =
    EtagMismatchExceptionClient(detailMessage: Option<string>, message: Option<string>)

  /** Java's string concatenation renders a null String as "null". */
  function ConcatForm(s: Option<string>): string
  {
    match s
    case None => "null"
    case Some(v) => v
  }

  /** The no-argument constructor: Exception gets no message, the field the class constant. */
  function NoArgs(): (e: EtagMismatchExceptionClient)
    ensures e.detailMessage.None?
    ensures GetMessage(e) == Some(EtagMismatch)
  {
    EtagMismatchExceptionClient(None, Some(EtagMismatch))
  }

  /** The (String message) constructor gives the caller's message, null included, to both. */
  function WithMessage(message: Option<string>): (e: EtagMismatchExceptionClient)
    ensures e.detailMessage == message
    ensures GetMessage(e) == message
  {
    EtagMismatchExceptionClient(message, message)
  }

  /**
   * The (Throwable cause) constructor wraps the cause's message in parentheses, so the
   * cause's message (or "null") can be read back from between them.
   */
  function WithCause(cause: Throwable): (e: EtagMismatchExceptionClient)
    ensures e.detailMessage == Some(cause.rendered)
    ensures GetMessage(e).Some?
    ensures EtagMismatch + " (" <= GetMessage(e).value
    ensures GetMessage(e).value[|GetMessage(e).value| - 1] == ')'
    ensures var m := GetMessage(e).value;
      var inner := m[|EtagMismatch + " ("|..|m| - 1];
      && (cause.message.Some? ==> inner == cause.message.value)
      && (cause.message.None? ==> inner == "null")
  {
    EtagMismatchExceptionClient(
      Some(cause.rendered), Some(EtagMismatch + " (" + ConcatForm(cause.message) + ")"))
  }

  /**
   * The (String message, Throwable cause) constructor hands both to Exception but never
   * assigns the private field, so the overriding getters see null whatever was passed.
   */
  function WithMessageAndCause(message: Option<string>, cause: Throwable): (e: EtagMismatchExceptionClient)
    ensures e.detailMessage == message
    ensures GetMessage(e).None?
  {
    EtagMismatchExceptionClient(message, None)
  }

  /** getMessage(): overridden to return the private field, not the detail message. */
  function GetMessage(e: EtagMismatchExceptionClient): Option<string>
  {
    e.message
  }

  /**
   * The two-argument constructor does hand a non-null message to Exception, yet
   * getMessage() answers null: the override hides the detail message it received.
   */
  lemma GetMessageIgnoresSuperclassMessage(message: string, cause: Throwable)
    ensures WithMessageAndCause(Some(message), cause).detailMessage == Some(message)
    ensures GetMessage(WithMessageAndCause(Some(message), cause)) == None
    ensures GetMessage(WithMessageAndCause(Some(message), cause)) != WithMessageAndCause(Some(message), cause).detailMessage
  {
  }

  /**
   * getLocalizedMessage(): overridden to return the same private field, so both getters
   * agree on every exception, whichever constructor built it.
   */
  function GetLocalizedMessage(e: EtagMismatchExceptionClient): (r: Option<string>)
    ensures r == GetMessage(e)
  {
    e.message
  }
}
