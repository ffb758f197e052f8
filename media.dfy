/** The values that flow between the content script, the background page and
    the two history views: one recorded media element and the message that
    carries it. */
module Media {

  datatype Option<+T> = None | Some(value: T) {
    /** `x || fallback` for a stored value that may be missing. */
    function GetOr(fallback: T): T {
      match this
      case Some(v) => v
      case None => fallback
    }
  }

  /** One observed media element. `mediaType` is the lower-cased tag name
      ("video" or "audio"), `timestamp` the detection instant as a number,
      `thumbnail` an encoded image that only videos may carry. */
  datatype Entry = Entry(
    url: string,
    title: string,
    mediaType: string,
    timestamp: int,
    pageUrl: string,
    thumbnail: Option<string>)

  /** A runtime message: its `type` tag and its payload. */
  datatype Message = Message(msgType: string, payload: Entry)

  function Min(a: int, b: int): int {
    if a <= b then a else b
  }

  /** The only message tag the background page reacts to. */
  const MediaDetected: string := "MEDIA_DETECTED"
}
