/**
 * `get_real_extension`: the file extension of a downloaded attachment is
 * guessed from the response's Content-Type, case-insensitively, by a fixed
 * list of substring tests tried in order.
 */
module Extension {
  import opened Strings

  /** The six extensions the sniffer can produce. */
  const SniffedExtensions: set<string> := {".amr", ".wav", ".mp3", ".png", ".gif", ".jpg"}

  /** The sniffed extensions that name an audio format. */
  const AudioExtensions: set<string> := {".amr", ".wav", ".mp3"}

  /** The lower-cased Content-Type names an audio format by one of the audio keywords. */
  predicate MentionsAudio(lowered: string) {
    Contains(lowered, "amr") || Contains(lowered, "wav") || Contains(lowered, "mpeg")
    || Contains(lowered, "mp3") || Contains(lowered, "audio")
  }

  /**
   * Python's `get_real_extension(response)`, given the Content-Type header
   * (the empty text when the header is missing).
   */
  function RealExtension(contentType: string): (ext: string)
    ensures ext in SniffedExtensions
  {
    var c := Lower(contentType);
    if Contains(c, "amr") then ".amr"
    else if Contains(c, "wav") then ".wav"
    else if Contains(c, "mpeg") || Contains(c, "mp3") || Contains(c, "audio") then ".mp3"
    else if Contains(c, "png") then ".png"
    else if Contains(c, "gif") then ".gif"
    else ".jpg"
  }

  /**
   * An audio extension is chosen exactly when the type mentions an audio
   * keyword; otherwise the result is an image extension, `.jpg` when no
   * keyword at all is present.
   */
  lemma AudioIffAudioKeyword(contentType: string)
    ensures RealExtension(contentType) in AudioExtensions <==> MentionsAudio(Lower(contentType))
    ensures (!MentionsAudio(Lower(contentType)) && !Contains(Lower(contentType), "png")
             && !Contains(Lower(contentType), "gif")) ==> RealExtension(contentType) == ".jpg"
  {
  }

  /**
   * Each keyword maps to one extension, and the keywords are tried in a
   * fixed priority: amr, then wav, then mpeg/mp3/audio, then png, then gif.
   */
  lemma RealExtensionPriority(contentType: string)
    ensures var c := Lower(contentType); var ext := RealExtension(contentType);
            && (ext == ".amr" <==> Contains(c, "amr"))
            && (ext == ".wav" <==> !Contains(c, "amr") && Contains(c, "wav"))
            && (ext == ".mp3" <==> !Contains(c, "amr") && !Contains(c, "wav")
                                   && (Contains(c, "mpeg") || Contains(c, "mp3") || Contains(c, "audio")))
            && (ext == ".png" <==> !MentionsAudio(c) && Contains(c, "png"))
            && (ext == ".gif" <==> !MentionsAudio(c) && !Contains(c, "png") && Contains(c, "gif"))
            && (ext == ".jpg" <==> !MentionsAudio(c) && !Contains(c, "png") && !Contains(c, "gif"))
  {
  }

  /** Only the letters' case is ignored: types that agree after lower-casing give the same extension. */
  lemma RealExtensionIgnoresCase(contentType: string)
    ensures RealExtension(Lower(contentType)) == RealExtension(contentType)
  {
    LowerIdempotent(contentType);
  }

  /** The spoken-note format: `audio/mpeg` is stored as `.mp3`. */
  lemma MpegIsMp3()
    ensures RealExtension("audio/mpeg") == ".mp3"
  {
    assert Lower("audio/mpeg") == "audio/mpeg";
    MissingCharNotContained("audio/mpeg", "amr", 2);
    MissingCharNotContained("audio/mpeg", "wav", 0);
    assert OccursAt("audio/mpeg", "mpeg", 6);
  }

  /** `audio/amr` is stored as `.amr`, the first test in the order. */
  lemma AmrIsAmr()
    ensures RealExtension("audio/amr") == ".amr"
  {
    assert Lower("audio/amr") == "audio/amr";
    assert OccursAt("audio/amr", "amr", 6);
  }

  /** `image/gif` is stored as `.gif`. */
  lemma GifIsGif()
    ensures RealExtension("image/gif") == ".gif"
  {
    var c := "image/gif";
    assert Lower(c) == c;
    MissingCharNotContained(c, "amr", 2);
    MissingCharNotContained(c, "wav", 0);
    MissingCharNotContained(c, "mpeg", 1);
    MissingCharNotContained(c, "mp3", 2);
    MissingCharNotContained(c, "audio", 1);
    MissingCharNotContained(c, "png", 0);
    assert OccursAt(c, "gif", 6);
  }

  /** An unrecognised type such as `text/html` falls back to `.jpg`. */
  lemma HtmlFallsBackToJpg()
    ensures RealExtension("text/html") == ".jpg"
  {
    var c := "text/html";
    assert Lower(c) == c;
    MissingCharNotContained(c, "amr", 0);
    MissingCharNotContained(c, "wav", 0);
    MissingCharNotContained(c, "mpeg", 1);
    MissingCharNotContained(c, "mp3", 1);
    MissingCharNotContained(c, "audio", 0);
    MissingCharNotContained(c, "png", 0);
    MissingCharNotContained(c, "gif", 0);
  }
}
