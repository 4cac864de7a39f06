/**
 * The records the sync reads from the note service, after JSON decoding.
 * A missing key is `None`. A folder id is the key's value as `str()`
 * renders it, so a JSON null there is `Some("None")`. A null title, voice
 * list, audio list, setting or `fileId` is read like a missing one, since
 * the source only tests them for truth. An `extraInfo` or setting that does
 * not decode (a null one included) is the empty record.
 */
module Notes {
  import opened Wrappers

  /** An element of a voice list, an audio list or a setting's `data` list. */
  datatype Attachment = Attachment(fileId: Option<string>)

  /** The decoded `extraInfo` of a listed note. */
  datatype ExtraInfo = ExtraInfo(title: Option<string>, voiceList: seq<Attachment>, audioList: seq<Attachment>)

  /** What a failed `json.loads` of `extraInfo` leaves. */
  const NoExtraInfo := ExtraInfo(None, [], [])

  /**
   * A note stub from the listing: its id, its folder id as text, its snippet,
   * its decoded extra info and its creation time in milliseconds.
   */
  datatype Entry = Entry(id: string, folderId: Option<string>, snippet: Option<string>, extra: ExtraInfo, createDate: int)

  /**
   * The detail of one note: its markup, the `data` list of its decoded
   * `setting` (empty when the setting is missing, empty or not decodable)
   * and its timestamps in milliseconds.
   */
  datatype Detail = Detail(content: string, setting: seq<Attachment>, createDate: int, modifyDate: int)
}
