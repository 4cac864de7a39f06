# MiNote-Sync, modelled in Dafny

MiNote-Sync exports Xiaomi Cloud notes into an Obsidian vault. It lists every
note page by page, then handles each note on its own:

- It works out the note's Markdown path from its folder, creation day and title.
- It skips the note when that file already exists.
- Otherwise it fetches the note's detail and downloads every attachment the markup or the metadata mentions. A file already in the assets directory is reused.
- It rewrites the markup so that each attachment becomes an `![[name]]` embed, and appends the voice recordings that are still unmentioned.
- It writes the file with a YAML front matter.

This project models that pipeline, which is all of `main.py` except its I/O
glue. It proves what each step promises.

- `strings.dfy` (`Strings`): Python's `in`, `str.replace`, `str.strip` and an ASCII `str.lower`, with the facts the other modules need.
- `sanitize.dfy` (`Sanitize`): `sanitize_filename`.
- `markup.dfy` (`Markup`): `clean_content`. This covers the lazy, dot-all `<text …>…</text>` and `<background …>…</background>` unwrapping, then the three entity replacements.
- `extension.dfy` (`Extension`): `get_real_extension`.
- `resolver.dfy` (`Resolver`): `download_resource`.
  - The assets directory is a map from file name to size.
  - The server is a function from (kind, id) to a response.
  - `Resolve` is the specification. `DownloadResource` is the method with the source's two loops and early returns.
- `lister.dfy` (`Lister`): `fetch_note_list`.
  - The pages the server would answer are a finite sequence.
  - `Walk` is the specification. `FetchNoteList` is the method with the source's loop.
- `notes.dfy` (`Notes`): the decoded records of a listed note and of a note's detail.
- `extract.dfy` (`Extract`): the attachment ids of a note.
  - The four `re.findall` patterns are scans that go left to right, never overlap and back off greedily.
  - The other ids are the voice (or else audio) list ids and the setting ids.
- `substitute.dfy` (`Substitute`): the five rewriting passes per resolved id, three `re.sub` and two `str.replace`.
- `note.dfy` (`NoteSync`): `process_single_note`.
  - The pure pieces are path, title, embeds, appendix and front matter.
  - The imperative pieces are the driver `ProcessSingleNote`, the download loop `DownloadAll` and the appendix loop `AppendVoices`.

The iteration order of Python's `ids` set is not specified by the language.
`DownloadAll` therefore picks ids in an arbitrary order and returns the order
it used. Two ids never share a file name, so each id's embed is the one it
would get alone, against the assets directory as it was before the loop. The
rewriting of the markup then follows the order in which ids were added to
`replacements`, as Python's dict does.

Where the code departs from the description of the tool, the model follows
the code.

- The note path carries no id suffix. `NoteSync.SameSnippetSamePath` shows two different notes of one folder and one day sharing a file.
- There is no retry, no page ceiling, no modification-time stamping and no style-attribute scrubbing.
- Cleaning is one pass and is not idempotent. Entities are decoded after the `<text>` and `<background>` elements are unwrapped, so an escaped `&lt;text>…</text>` comes out as a `<text>` element that only a second cleaning would unwrap: `Markup.CleanContentNotIdempotent`.

One quirk of the code is modelled as written. A cached file counts only when
it is larger than 1000 bytes, but a download is accepted from 1000 bytes on.
An attachment of exactly 1000 bytes is therefore downloaded again on every
run: `Resolver.ThousandByteFileIsFetchedAgain`.

## Model

| member | source | states |
|---|---|---|
| Strings.IndexOf | main.py:64-65 | the first occurrence of a pattern (what `[^>]*>` and a lazy `.*?</tag>` stop at); None exactly when the pattern does not occur |
| Strings.ReplaceAll | main.py:66 | `str.replace` of a pattern by itself changes nothing, and a replacement of the pattern's length keeps the text's length |
| Strings.ReplaceAllChars | main.py:66 | every character after `str.replace` comes from the text or from the replacement |
| Strings.ReplaceAllAbsent | main.py:66 | `str.replace` of a pattern that does not occur changes nothing |
| Strings.ReplaceAllRemoves | main.py:66 | after `str.replace` with a replacement sharing no character with the pattern, the pattern no longer occurs |
| Strings.ReplaceAllKeepsAbsent | main.py:66 | `str.replace` does not create an occurrence of a text whose characters the replacement lacks |
| Strings.StripIsSlice | main.py:59 | `str.strip` returns a contiguous slice of the text with only whitespace cut before and after it |
| Strings.StripLeftCutsSpace | main.py:59 | what the left strip removes is all whitespace |
| Strings.StripRightCutsSpace | main.py:59 | what the right strip removes is all whitespace |
| Strings.Strip | main.py:59 | `str.strip` leaves no whitespace at either end and adds no character |
| Strings.StripEmptyIff | main.py:59 | `str.strip` gives `""` exactly when the text is all whitespace |
| Strings.Lower | main.py:71 | no capital letter is left; the length is kept; each capital becomes its small letter and every other character stays in place |
| Strings.LowerIdempotent | main.py:71 | lower-casing twice is lower-casing once |
| Sanitize.DropForbidden | main.py:59 | the `re.sub` keeps exactly the characters outside `\ / * ? : " < > \|`, and a name without them is returned unchanged |
| Sanitize.DropForbiddenChar | main.py:59 | a single forbidden character is removed and any other single character kept |
| Sanitize.DropForbiddenAppend | main.py:59 | the removal works character by character: it distributes over concatenation, so order and multiplicity of the kept characters are preserved |
| Sanitize.NewlinesToSpaces | main.py:59 | `.replace('\n', ' ')` keeps the length and leaves no newline |
| Sanitize.NewlinesToSpacesIsReplace | main.py:59 | the newline pass is exactly `str.replace('\n', ' ')` as `Strings.ReplaceAll` models it: each newline becomes a space in place and every other character is kept |
| Sanitize.SanitizeFilename | main.py:57-59 | at most 50 characters, none of the nine forbidden ones, no newline, and the first character (if any) is not whitespace |
| Sanitize.SanitizeKeepsSafeName | main.py:57-59 | a name that is already safe (short, clean, no outer whitespace) is returned unchanged |
| Sanitize.BlankAfterPasses | main.py:59 | the text before the strip is all whitespace exactly when the name has only forbidden and whitespace characters |
| Sanitize.SanitizeEmptyIff | main.py:57-59 | the result is empty exactly when the name has only forbidden and whitespace characters |
| Markup.MatchElement | main.py:64-65 | a match consumes at least the opening and closing tags: its inner text and the rest are shorter than the text |
| Markup.MatchElementSpec | main.py:64-65 | a match is the opening tag, attributes without `>`, `>`, an inner text without the closing tag, the closing tag and the rest |
| Markup.MatchElementFinds | main.py:64-65 | an element whose attributes have no `>` and whose inner text has no closing tag is matched with exactly that inner text |
| Markup.Unwrap | main.py:64-65 | unwrapping never lengthens the text, and shortens it whenever an element matches |
| Markup.UnwrapElement | main.py:64-65 | such an element is replaced by its inner text and the scan goes on after it |
| Markup.UnwrapWithoutOpenTag | main.py:64-65 | a text without the opening tag is left as it is |
| Markup.UnwrapSkipsPrefix | main.py:64-65 | `re.sub` scans on: a prefix at none of whose positions an element starts is copied, and the rest is unwrapped as if it stood alone |
| Markup.UnwrapElementAfter | main.py:64-65 | an element after ordinary text is replaced by its inner text, the text before it is kept and the scan goes on after it |
| Markup.DecodeEntities | main.py:66 | no `&nbsp;`, `&lt;` or `&gt;` remains |
| Markup.DecodeWithoutAmpersand | main.py:66 | a text without `&` is left as it is |
| Markup.CleanContent | main.py:61-67 | empty content gives `""`; the result contains no `&nbsp;`, `&lt;` or `&gt;` |
| Markup.CleanKeepsPlainText | main.py:61-67 | text with no `<text`/`<background` and no entity is returned unchanged |
| Markup.CleanContentNotIdempotent | main.py:61-67 | cleaning is not idempotent: an escaped `&lt;text>…</text>` is decoded into a `<text>` element by the first pass and unwrapped only by a second |
| Extension.RealExtension | main.py:69-77 | the result is one of `.amr .wav .mp3 .png .gif .jpg` |
| Extension.AudioIffAudioKeyword | main.py:72-77 | an audio extension comes back exactly when the lowered type mentions amr, wav, mpeg, mp3 or audio; with none of these and no png or gif the default is `.jpg` |
| Extension.RealExtensionPriority | main.py:69-77 | for every type, each extension is chosen exactly when its keyword occurs in the lowered type and no keyword tried earlier does: amr, then wav, then mpeg/mp3/audio, then png, then gif, else `.jpg` |
| Extension.RealExtensionIgnoresCase | main.py:71 | the classification ignores case |
| Extension.MpegIsMp3 | main.py:74 | example: `audio/mpeg` gives `.mp3` |
| Extension.AmrIsAmr | main.py:72 | example: `audio/amr` gives `.amr` (amr wins over audio) |
| Extension.GifIsGif | main.py:76 | example: `image/gif` gives `.gif` |
| Extension.HtmlFallsBackToJpg | main.py:77 | example: a type naming no known format gives `.jpg` |
| Resolver.CacheIndexFrom | main.py:82-86 | the first extension, from a start index in list order, whose file exists with more than 1000 bytes |
| Resolver.AcceptIndexFrom | main.py:90-101 | the first kind, from a start index in order, answered with status 200 and a length of at least 1000 |
| Resolver.ResolveCases | main.py:79-103 | a name is the id plus one of the cache extensions; a reused file is larger than 1000 bytes and costs no request or write; a downloaded file is written under its name with the accepted length by the last kind requested, and nothing else changes; with no name every kind was requested and nothing was written |
| Resolver.DownloadResource | main.py:79-103 | the two loops return the name, the kinds requested and the new directory that `Resolve` gives |
| Resolver.ResolveReusesCache | main.py:82-86 | when some `fid+ext` is larger than 1000 bytes, the first such name is returned with no request and no write |
| Resolver.ResolveProbesInOrder | main.py:88-101 | otherwise the kinds are requested in order up to the first accepted one, whose sniffed name is returned and is the only file written |
| Resolver.ResolveNoneIff | main.py:79-103 | None exactly when nothing is cached and no kind is accepted; then all four kinds were requested and nothing was written |
| Resolver.SniffedAreCached | main.py:82 | every sniffed extension is one the cache probe looks for |
| Resolver.ResolveWritesOwnNamesOnly | main.py:99-100 | only one of the id's own names can be written |
| Resolver.ResolveReadsOwnNamesOnly | main.py:82-86 | the outcome depends only on the id's own names on disk |
| Resolver.OwnNamesDisjoint | main.py:83 | two different ids never share a file name |
| Resolver.ResolveAgainIsCached | main.py:82-101 | resolving again after a download larger than 1000 bytes returns the same name with no request and no write |
| Resolver.ThousandByteFileIsFetchedAgain | main.py:85-96 | a 1000-byte download is requested again on the next run |
| Lister.MergeFolders | main.py:125-126 | the folder map only gains keys, and every folder id of the page becomes a key |
| Lister.MergeFoldersSpec | main.py:125-126 | the folder map gains every folder id of the page, the last definition of an id wins, and the others keep their names |
| Lister.MergeFoldersAppend | main.py:113-126 | merging page after page is merging their folders in one go, in order |
| Lister.Walk | main.py:110-133 | the listing only extends the entries gathered so far and only adds folder ids, so `'0'` is always mapped |
| Lister.FetchNoteList | main.py:105-139 | the loop's result is `Walk` of the pages from an empty list and `{'0': '未分类'}` |
| Lister.PagesRead | main.py:113-137 | the pages read are a non-empty prefix in which every page before the last continued |
| Lister.WalkReadsPrefix | main.py:113-139 | the result is denied, or the in-order concatenation of the entries of the pages read and the folder map merged over them |
| Lister.FoldersOfIsMerge | main.py:125-126 | the page-by-page folder map is one merge of all the pages' folders in order |
| Lister.ListingIsMerge | main.py:105-139 | a listing holds the entries of the pages read, in order, and `{'0': '未分类'}` merged with all their folders in order |
| Lister.WalkStopsAtEmptyTag | main.py:132-133 | nothing after a page with an empty sync tag is read |
| Lister.WalkDeniedIff | main.py:119-121 | the result is `(None, None)` exactly when a 401 arrives before the loop stops |
| Lister.OnePageTwoFolders | main.py:105-139 | a single page with one folder and an empty sync tag gives its two entries and the map `{'0': '未分类', '5': 'Work'}` |
| Extract.MatchFileid | main.py:185 | a `fileid=` match captures a non-empty run of id characters found in the text |
| Extract.LastFileid | main.py:188 | the position found is in range and `fileid=` matches there |
| Extract.LastFileidIsLast | main.py:188 | the greedy `[^>]+` backs off to the last `fileid=` that matches: none matches after the position found, and none in the range when nothing is found |
| Extract.LastFileidSkips | main.py:188 | positions that do not match can be dropped from the right of the range without changing the result |
| Extract.MatchSound | main.py:188 | a `<sound` match captures a non-empty run of id characters that occurs in the text at the captured position |
| Extract.SoundTagMatches | main.py:188 | in `<sound fileid="id">` the sound pattern captures exactly `id`, stopping before the closing quote |
| Extract.MatchAt | main.py:185-188 | every match of the four patterns captures a non-empty id occurring in the text |
| Extract.NoLeadNoMatch | main.py:185-188 | no pattern matches at a character that cannot start it |
| Extract.Scan | main.py:185-188 | every id `re.findall` returns is a non-empty run of id characters occurring in the content, and a match at the front is always returned |
| Extract.ScanSkipsPrefix | main.py:185-188 | `re.findall` scans on past a prefix at none of whose positions a match starts: such a prefix adds no id |
| Extract.ScanAfterMatch | main.py:185-188 | after a match, `re.findall` returns its id and goes on scanning where the match ended |
| Extract.EncodedMatches | main.py:185-188 | an id written in a pattern's own form is matched there with exactly that id, whatever follows (after a smiley, once the id's characters end) |
| Extract.ScanFindsEncoded | main.py:185-188 | `re.findall` finds every id written in a pattern's form after text that cannot start a match |
| Extract.ScanRecoversId | main.py:185-188 | an id written as `fileid="id"`, `☺id`, `<fileId:id>` or `<sound fileid="id">` is exactly what the pattern extracts |
| Extract.PresentIds | main.py:190-197 | exactly the truthy file ids of the list are kept: each kept id comes from an element, and every element's non-empty id is kept |
| Extract.PresentIdsOne | main.py:190-197 | a single element gives its file id exactly once when it is truthy, and nothing otherwise |
| Extract.PresentIdsAppend | main.py:191 | the ids of a list are taken element by element, in order |
| Extract.VoiceIds | main.py:190-191 | exactly the truthy ids of the voice list, or of the audio list only when the voice list is empty |
| Extract.ExtractsAllEncodings | main.py:184-198 | a content holding one id in each of the four pattern forms, one after another, plus a voice id, yields all five ids |
| Extract.ExtractIds | main.py:184-198 | every id is non-empty and is an id-character run occurring in the content, a voice id or a setting id; every voice id, setting id and id found by the four scans is included |
| Substitute.NextChar | main.py:210-212 | the first `>` (or newline) from a position on |
| Substitute.LastAnchor | main.py:210-212 | the greedy prefix backs off to the last position where the id occurs and the rest can still match: none after it does, and none in range when nothing is found |
| Substitute.TagMatch | main.py:210-211 | a tag match starts with its prefix, ends right after a `>` and contains the id |
| Substitute.SubMatch | main.py:210-212 | every match of the three patterns contains the id |
| Substitute.Sub | main.py:210-212 | a pass only removes text or inserts the replacement: every character comes from the text or the replacement |
| Substitute.SubstituteOne | main.py:210-214 | the five passes add only the link's characters and newlines |
| Substitute.SubAbsent | main.py:210-212 | a pass leaves a text that does not mention the id unchanged |
| Substitute.SubstituteOneAbsent | main.py:210-214 | the five passes leave a text that does not mention the id unchanged |
| Substitute.SubstituteAll | main.py:209-214 | ids the text never mentions leave it unchanged, whatever the order |
| Substitute.SubWithoutStart | main.py:210-212 | a pass leaves a text without `<` (or `☺`) unchanged |
| Substitute.SubSkipsPrefix | main.py:210-212 | `re.sub` scans on: a prefix at none of whose positions a match starts is copied, and the rest is rewritten as if it stood alone |
| Substitute.SubAfterMatch | main.py:210-212 | after a match, `re.sub` writes the replacement and goes on rewriting where the match ended |
| Substitute.SoundElementMatched | main.py:210 | a `<sound …id…>` element whose only `>` closes it is matched whole |
| Substitute.SoundElementReplaced | main.py:210-214 | such an element, after text without `<` or `☺`, becomes the embed on a line of its own and the text before it is kept |
| Substitute.WholeTagMatched | main.py:210-211 | a tag that starts with the pattern's prefix, mentions the id and whose only `>` closes it is matched whole |
| Substitute.TagReplaced | main.py:210-214 | a tag other than `<sound…` that mentions the id, such as an `<img fileid=…/>`, is kept by the sound pass and replaced whole by the tag pass, leaving just the embed line |
| Substitute.SmileyLineMatched | main.py:212 | the smiley pass matches `☺`, the whitespace, the id and the rest of the line, stopping before the newline |
| Substitute.SmileyLineReplaced | main.py:210-214 | a `☺` line naming the id becomes the embed, and the newline that ended it and the text after it are kept |
| NoteSync.FolderNameOfListing | main.py:156-157 | after a listing, a note's folder name is the unclassified name when no folder read defines its folder id (default `'0'`), and otherwise the subject of the last definition read |
| NoteSync.RawTitle | main.py:163 | a non-empty title wins; otherwise the snippet, or the placeholder when there is none; the result is empty only for an empty snippet behind a missing or empty title |
| NoteSync.NoteTitle | main.py:163-165 | the title is never empty |
| NoteSync.NoteTitleCases | main.py:163-165 | the sanitized title (a safe name of at most 50 characters) unless sanitizing leaves nothing, and only then `无标题_<id>` |
| NoteSync.PathOf | main.py:167-169 | the folder directory is a safe name of at most 50 characters, and the file name starts with the day and `_`, has a non-empty title and ends with `.md` |
| NoteSync.SameSnippetSamePath | main.py:167-169 | the id is not part of the path, so two notes with one snippet, folder and day share a file |
| NoteSync.Embeds | main.py:201-205 | an embed `![[name]]` exactly for the ids that resolved to a name |
| NoteSync.Replacements | main.py:201-205 | an id has an embed exactly when it resolves to a name, and its embed starts with `![[` and the id |
| NoteSync.ReplacementsMentionIds | main.py:205 | every embed mentions its id |
| NoteSync.ResolveOwnNamesLocal | main.py:202-203 | resolving an id gives the same name, and the same own files, on any directory agreeing on its own names |
| NoteSync.DownloadAll | main.py:200-205 | every id is visited once; `replacements` is each id's embed as resolved against the directory before the loop; the directory afterwards holds each id's own files as resolving it alone leaves them and nothing else changes |
| NoteSync.Picks | main.py:219-220 | each appended id is a voice id that resolved and that the text did not mention |
| NoteSync.WithVoicesShape | main.py:217-224 | the appendix is one block at the end: the heading once, only if something is appended, then one embed line per picked id |
| NoteSync.WithVoicesExtends | main.py:217-224 | the text is only extended; with no heading yet, either nothing is added or the heading comes first |
| NoteSync.AppendVoices | main.py:217-224 | the loop with the `appended` flag gives `WithVoices` |
| NoteSync.WithVoicesMentions | main.py:217-224 | afterwards every resolved voice id is mentioned |
| NoteSync.WithVoicesUnchangedIff | main.py:217-224 | nothing is appended exactly when every resolved voice id is already mentioned |
| NoteSync.Render | main.py:230 | the file starts with `---\nid: <id>\n` and ends with the closing `---`, `# <title>`, the text and a newline |
| NoteSync.Resolved | main.py:209 | `replacements.items()` visits exactly the ids that resolved, in visiting order |
| NoteSync.ResolvedOne | main.py:202-209 | a single visited id is kept exactly once when it resolved, and dropped otherwise |
| NoteSync.ResolvedAppend | main.py:202-209 | the ids that resolved are kept in visiting order, visit by visit |
| NoteSync.NoteTextShape | main.py:207-230 | the note's text opens with its front matter, and a note mentioning none of its resolved ids and without recordings ends with its cleaned text and a newline |
| NoteSync.NoteMentionsResolvedVoices | main.py:202-230 | every voice recording that resolved is mentioned by the file written |
| NoteSync.ProcessSingleNote | main.py:150-233 | the detail is requested exactly when the path is not in the vault; with no request or no detail nothing changes; otherwise exactly that path is written, with the rendered note, and the assets directory is as resolving the note's ids leaves it |
| NoteSync.SyncDetail | main.py:178-230 | the text written is the cleaned, substituted, appended and rendered note, every id is visited once, and the directory is as `DownloadAll` leaves it |
| NoteSync.SyncTwice | main.py:169-176 | once a note has been written, a second run finds its path, asks for nothing and changes nothing |

## Left out

- `gui.py`: the tkinter front end, its log queue, clipboard polling, browser launching, config persistence and worker thread. It also imports a class `main.py` does not define.
- `get_headers` and `setup_dirs`: the interactive cookie prompt and directory creation are I/O. So is the `os.makedirs` of a note's folder at main.py:180-181.
- `fetch_note_detail` and `main()`: an HTTP request and a `ThreadPoolExecutor` fan-out. The model handles one note at a time. The detail request is the function parameter `fetch`, and it is None for a failed request or an empty answer.
- HTTP, streaming writes and JSON decoding are abstract values.
  - A failed `json.loads` of `extraInfo` or `setting` is an empty record.
  - A file's size on disk is taken to be the content length the server announced.
  - A page is either a 401, a failure (any exception) or a decoded page.
- Resolver.DownloadResource: a write that fails part-way is not modelled. It sends the source on to the next kind; the model takes every accepted answer as written.
- Lister.FetchNoteList: the server's pages are a finite sequence. Running out of pages ends the listing like a failed request.
- `time.strftime` of local time: the dates are the function parameters `day` and `stamp`.
- `print` output, the `time.sleep` between pages, and the URLs built.
- Extract.Scan: `\w`, `\d` and `\s` are taken on ASCII letters, digits and Python's whitespace set. Python's Unicode `\w` also accepts other letters and digits, and `re.I` also folds a few non-ASCII letters onto `fileid`.
- Strings.Lower: lower-cases ASCII only. Content types are ASCII.
- Substitute.SubstituteOne: the replacement text is taken literally. `re.sub` would expand backslash escapes in an id containing `\`.
- A JSON null for `snippet` or for the detail's `content`, and non-string ids or titles, make the source raise. The model has strings there.
- A JSON null folder `subject` is stored in the folder map (main.py:126). The source then raises in `sanitize_filename(None)` (main.py:168), before the gate, so that folder's notes are never written, and `pool.map` discards the exception. The model's folder subject is a string, so every note with a listed folder is written.
- A missing or null `createDate` in a listing entry raises at main.py:167, and a missing or null `createDate` or `modifyDate` in the detail raises at main.py:227-228. The model's dates are integers that are always present.
- The remaining nulls are modelled: a null `folderId` becomes the folder id `"None"` through `str()`, and a null title, voice or audio list, setting or `fileId` is read like a missing key, because the source only tests it for truth.
- An exception part-way through a page's folders or through the setting's list keeps what was added before it. The model treats a page or a setting as a whole.
