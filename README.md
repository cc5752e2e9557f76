# TekTune article store: a Dafny model

TekTune is a small knowledge-base web application. A Flask server (`backend/app.py`) keeps
articles as `.txt` files in one directory and pasted or uploaded images in another. A
single-page JavaScript client (`frontend/public/js/app.js`) lists, shows, edits and saves
those articles. This project models and verifies two parts of it in Dafny 4.11:

- **the server's article store** (`backend.dfy`, module `Backend`). This covers:
  - title validation against `^[A-Za-z0-9 ]+$`, including Python's `$`, which also matches
    before one final line feed;
  - the title/file-name mapping and its inverse;
  - the image-extension check;
  - reading, creating, renaming and deleting articles, with the directory modelled as a map
    from file name to content;
  - the case-insensitive title listing;
  - the loop that picks a free name for an uploaded image.
- **the client's pure helpers and page state** (`frontend.dfy`, module `Frontend`). This
  covers:
  - the slug chain `onSave` applies before it sends a title, and the decision whether to send
    a request at all;
  - `isValidURL`, `title_to_folder`, `toMarkdown` and the text `surroundSelection` inserts;
  - the numbering of pasted images;
  - the buttons `renderTopBar` shows;
  - the global `state` record and the handlers that change it.

`common.dfy` (module `Common`) holds the string helpers both sides share:
- ASCII case mapping;
- JavaScript `trim` and Python `strip` (they remove different character sets);
- literal global replacement, `split`/`join`;
- decimal printing and parsing, and `padStart`.

Pure code is modelled as functions, with the properties stated as lemmas. Code that changes state in place is modelled as classes:
- `Backend.ArticleDirectory` and `Backend.ImageDirectory` hold the two directories;
- `Frontend.UiState` holds the client's `state` record.

The two loops are methods with loop invariants:
- the free-name loop of `upload_image`;
- the `forEach` over pasted-image names.

### Behaviour the model makes explicit

- **Client slugs and server titles disagree.** The client turns a multi-word title into a slug
  with underscores (`my_post`) and sends that as `title`. The server's regex rejects `_`. So a
  save from the client succeeds only for slugs without an underscore
  (`Frontend.ServerAcceptsSlugIff`). Two ASCII words separated by whitespace always give such
  an underscore, and their save is answered with 400 (`Frontend.TwoWordTitleRejected`).
- **The slug is not idempotent.** `"a b"` becomes `"a_b"`, and a second pass gives `"ab"`: the
  first step drops `_`, which is not in `[a-z0-9\s]` (`Frontend.SlugNotIdempotent`).
- **Listed titles and file names differ.** The listing turns `_` into spaces. `GET` adds only
  `.txt` to the requested name. So a listed title containing a space is looked up under a file
  name with a space, and that file does not exist.
- **Unsaved changes are always reported.** `onClose` compares with `state.lastSavedContent` and
  `state.lastSavedTitle`, which nothing assigns. They therefore read as empty, and any non-empty content or title
  counts as unsaved (`UiState.OnClose`).
- **`creationStep` never returns to null.** Once the add editor has been opened
  (`renderAddArticleUI`, frontend/public/js/app.js:333) it stays `'editor'`; the edit editor
  does not set it, so a session that only edits keeps `null`, and the document-level paste
  handler stays off. The value `'title'` is never assigned.
- **Save is a no-op on the page.** frontend/public/js/app.js:6 assigns `window.onSave = () => {}`
  after the declaration of `onSave` at line 445 has been hoisted. In a classic script that
  assignment replaces the global binding, so the Save button (line 929) and "Yes please"
  (line 406) call the empty function. `Frontend.SaveRequest` models the declared `onSave`, the
  code that would run without that assignment.
- **The add-mode top bar is stale.** `onAdd` and `renderAddArticleUI` (lines 256-336) never call
  `renderTopBar`, so the view-mode buttons stay on screen in add mode, and the POST branch of
  `onSave` cannot be reached from the page. `Frontend.RenderTopBar` is the bar that
  `renderTopBar` would draw for a mode, not necessarily the bar on screen.
- **A paste in the add editor goes to `/images/null`.** The document-level handler builds its
  URL from `state.selected`, which `onAdd` sets to null (`UiState.OnPaste`).
- **The upload URL does not match the route.** The client posts images to
  `/api/images/<selected>` or `/api/images/untitled`, while the server routes only
  `/api/images`. The model leaves the routes out and keeps both sides as written.
- **Pasted-image numbering stops at `image_1000.png`.** The pattern wants exactly three digits.
  After `image_999.png` the next paste is named `image_1000.png`, which the pattern does not
  match, so the largest number found stays 999 and every later paste is named `image_1000.png`
  again (`Frontend.PastedNumberingSaturates`, `Frontend.ThousandthNameUnmatched`).
- **Line ends change on the way back.** The server reads an article in Python's text mode, so a
  `\r\n` or a lone `\r` in the stored content comes back as `\n` (`Backend.GetArticle`,
  `Backend.ReadTextCrLf`).
- **Three helpers are never called.** `toMarkdown` (frontend/public/js/app.js:513),
  `surroundSelection` (line 694) and `title_to_folder` (line 908) are defined but nothing in
  app.js calls them. The model states what they would compute.

## Model

| member | source | states |
|---|---|---|
| Backend.TitleRegexMatches | backend/app.py:19-21 | the definition of `TITLE_REGEX.match` as a greedy run of title characters; its meaning is stated by TitleRegexMatchesIff |
| Backend.TitleRegexMatchesIff | backend/app.py:19 | the title regex accepts exactly the non-empty strings of letters, digits and spaces, and those followed by one final line feed |
| Backend.StrippedTitleMatches | backend/app.py:59-61 | on a stripped title the line-feed case cannot arise: valid iff non-empty and all letters, digits and spaces |
| Backend.TitleToFilename | backend/app.py:20-23 | None iff the regex rejects the title; otherwise the title with each space replaced by `_`, followed by `.txt` |
| Backend.FilenameToTitle | backend/app.py:25-28 | drops a `.txt` suffix if present (length minus 4); every `_` of what remains becomes a space and every other character is kept; the result contains no `_` |
| Backend.TitleRoundTrip | backend/app.py:20-28 | for every valid title, the file name it maps to maps back to that title |
| Backend.TitleToFilenameInjective | backend/app.py:20-23 | two titles with the same file name are equal |
| Backend.AfterLastDot | backend/app.py:31-32 | None iff there is no `.`; otherwise the dot-free suffix that follows the last `.` |
| Backend.IsImageExtension | backend/app.py:32 | the definition of the lower-cased extension being in `ALLOWED_IMAGE_EXTENSIONS`, the set of line 9 (the constant `Backend.ImageExtensions`) |
| Backend.AllowedImageFile | backend/app.py:30-32 | the definition of `allowed_image_file` through the text after the last `.`; its meaning is stated by AllowedImageFileIff |
| Backend.AllowedImageFileIff | backend/app.py:30-32 | an image file name is allowed iff some `.` has no later `.` and the text after it, lower-cased, is png, jpg, jpeg, gif or webp (the set at line 9) |
| Backend.TxtKey | backend/app.py:93 | the result always ends in `.txt`; a name with that suffix is kept, any other gets it appended |
| Backend.TxtKeyIdempotent | backend/app.py:93 | normalising the suffix twice is the same as once |
| Backend.ReadText | backend/app.py:52-53 | reading in text mode with universal newlines: the result holds no `\r` and is no longer than the file |
| Backend.ReadTextPlain | backend/app.py:52-53 | text without `\r` is read back unchanged |
| Backend.ReadTextCrLf | backend/app.py:52-53 | a `\r\n` is read back as one `\n` |
| Backend.ReadTextLoneCr | backend/app.py:52-53 | a `\r` not followed by `\n` is read back as `\n` |
| Backend.ReadTextIdempotent | backend/app.py:52-53 | reading what was read changes nothing |
| Backend.GetArticle | backend/app.py:45-54 | None (404) iff the suffixed name is not a file; otherwise that file's content as text mode reads it (line ends translated by ReadText), and the title `filename_to_title` gives for the suffixed name, free of `_` |
| Backend.GetCreated | backend/app.py:45-69 | after a file is written for a valid title, reading it back by its file name yields that title and the content with its line ends translated; content without `\r` comes back unchanged |
| Backend.ArticleDirectory.CreateArticle | backend/app.py:56-69 | invalid stripped title: 400 and nothing changes; existing file: 409 and nothing changes; otherwise exactly that file is added with the content |
| Backend.ArticleDirectory.UpdateArticle | backend/app.py:71-89 | 400, then 404 for a missing old file, then 409 for a different existing target, with nothing changed in each; on success the new file holds the content, the old one is gone iff the name changed, and every other file is untouched |
| Backend.ArticleDirectory.DeleteArticle | backend/app.py:91-97 | missing suffixed file: 404 and nothing changes; otherwise exactly that file is removed |
| Backend.TxtFiles | backend/app.py:40 | keeps exactly the listed names that end in `.txt` |
| Backend.TitlesOf | backend/app.py:41 | one title per listed name, each the `filename_to_title` of that name, in the same order |
| Backend.LexLe | backend/app.py:42 | the definition of Python's `<=` on `str`: code point by code point, a prefix first |
| Backend.LexLeTotal | backend/app.py:42 | any two strings are ordered one way or the other |
| Backend.LexLeTransitive | backend/app.py:42 | the order is transitive |
| Backend.InsertByLower | backend/app.py:42 | inserting into a list sorted by lower-cased value keeps it sorted, and adds exactly the one element |
| Backend.SortByLower | backend/app.py:42 | the result is sorted by lower-cased value and is a permutation of the input |
| Backend.ListArticles | backend/app.py:38-43 | for any order the directory lists its files in: the titles of the `.txt` files, each once, sorted case-insensitively |
| Backend.ListArticlesLength | backend/app.py:40-41 | one title per `.txt` file of the directory |
| Backend.ListArticlesMembers | backend/app.py:40-42 | a title is listed iff some `.txt` file of the directory maps to it; other files are ignored |
| Backend.SplitExt | backend/app.py:111 | base and extension concatenate to the name; the extension is non-empty iff the name has a `.` and some character before the last `.` is not a `.`, and then it is that `.` and the text after it (`os.path.splitext` for a name without `/`, which is what `secure_filename` returns) |
| Backend.Candidate | backend/app.py:114 | the definition of the name `f"{base}_{counter}{ext}"`; CandidateInjective and FreeImageName state what it is used for |
| Backend.CandidateInjective | backend/app.py:114 | different counters give different candidate names |
| Backend.FreeImageName | backend/app.py:108-116 | the chosen name is free; it is the secured name when that is free, otherwise `base_k+ext` for the smallest free k >= 1 |
| Backend.ImageDirectory.UploadImage | backend/app.py:99-119 | the three 400 errors leave the directory unchanged; otherwise a previously free name is added and the URL is `/images/` plus that name; the name is the secured name when that is free, else `base_k+ext` for the smallest k >= 1 whose name is free |
| Frontend.KeepSlugChars | frontend/public/js/app.js:460 | keeps characters of the input, only ASCII lower-case letters, digits and whitespace, and keeps every such character |
| Frontend.KeepSlugCharsAppend | frontend/public/js/app.js:460 | the filter works piece by piece and keeps order: the result for `a + b` is the result for `a` followed by the result for `b` |
| Frontend.KeepSlugCharsOne | frontend/public/js/app.js:460 | a single character is kept iff it is a lower-case letter, a digit or whitespace; with KeepSlugCharsAppend this pins the result |
| Frontend.KeepSlugCharsAll | frontend/public/js/app.js:460 | a text made only of kept characters is left unchanged |
| Frontend.CollapseRuns | frontend/public/js/app.js:461-462 | a run at the start becomes one `_`; after the underscore pass no `__` remains |
| Frontend.CollapseOneRun | frontend/public/js/app.js:461-462 | a non-empty text made only of the class becomes exactly one `_` |
| Frontend.CollapseRunsNone | frontend/public/js/app.js:461-462 | a text without characters of the class is left unchanged |
| Frontend.CollapseRunsAppend | frontend/public/js/app.js:461-462 | when no run crosses the boundary, the result for `a + b` is the result for `a` followed by the result for `b`; with the two lemmas above this pins the result, in order |
| Frontend.CollapseRunsFrom | frontend/public/js/app.js:461-462 | every output character is `_` or an input character outside the collapsed class |
| Frontend.CollapseRunsKeeps | frontend/public/js/app.js:461-462 | every input character outside the collapsed class survives |
| Frontend.DropLeadingUnderscore | frontend/public/js/app.js:463 | the `^_` alternative: the first character is removed iff it is `_`, and the rest is kept |
| Frontend.DropTrailingUnderscore | frontend/public/js/app.js:463 | the `_$` alternative: the last character is removed iff it is `_`, and the rest is kept |
| Frontend.StripEdgeUnderscores | frontend/public/js/app.js:463 | the number of characters removed is one for a leading `_` plus one for a trailing `_` at a different position; with both removed the middle is kept, with one removed the rest is kept, otherwise the text is unchanged |
| Frontend.StripEdgesOf | frontend/public/js/app.js:463 | one optional `_` on each side of a text with no `_` at its ends is removed, and the text is kept |
| Frontend.Slug | frontend/public/js/app.js:458-463 | the definition of the slug chain, the four steps above in source order; its properties are the lemmas below |
| Frontend.SlugCharset | frontend/public/js/app.js:458-463 | a slug holds only `[a-z0-9_]`, never `__`, and no `_` at either end |
| Frontend.SlugEmptyIff | frontend/public/js/app.js:465-468 | the slug is empty iff the title has no ASCII letter or digit |
| Frontend.CollapseGap | frontend/public/js/app.js:461-462 | a non-empty run of the class between two non-empty stretches without it becomes one `_` |
| Frontend.SlugOfWords | frontend/public/js/app.js:458-463 | two ASCII words separated by a whitespace run give the lower-cased words joined by one `_` |
| Frontend.TwoWordTitleRejected | frontend/public/js/app.js:449-474 | saving such a title in add mode sends a POST whose title the server's check rejects |
| Frontend.SlugNotIdempotent | frontend/public/js/app.js:458-463 | slugging `a b` gives `a_b`, and slugging that again gives `ab` |
| Frontend.ServerAcceptsSlugIff | frontend/public/js/app.js:474 | a non-empty slug passes the server's title check iff it contains no `_` |
| Frontend.SlugCharsAccepted | frontend/public/js/app.js:474 | a non-empty string of slug characters passes the server's title check iff it contains no `_` |
| Frontend.SelectionSegment | frontend/public/js/app.js:896 | the definition of the URL segment built from `state.selected` (here and in the PUT at line 491), with a null selection printing as `null` |
| Frontend.SaveRequest | frontend/public/js/app.js:445-510 | the definition of what the declared `onSave` sends; its meaning is stated by SaveRequestRules |
| Frontend.SaveRequestRules | frontend/public/js/app.js:445-510 | an alert and no request iff the trimmed title is empty or has no letter or digit; otherwise POST in add mode and PUT to the selection's segment in edit mode, sending the slug, the content and the trimmed title; nothing in view mode |
| Frontend.IsValidURL | frontend/public/js/app.js:912-915 | the definition of the `/^https?:\/\//i` test on the trimmed text; its meaning is stated by IsValidURLIff |
| Frontend.HasHttpScheme | frontend/public/js/app.js:914 | the definition of `/^https?:\/\//i` on a text, character by character |
| Frontend.IsValidURLIff | frontend/public/js/app.js:912-915 | valid iff the trimmed, lower-cased text starts with `http://` or `https://` |
| Frontend.TitleToFolder | frontend/public/js/app.js:908-910 | `title_to_folder`, defined but never called in app.js: same length as the title; each space becomes `_` and every other character is kept |
| Frontend.TitleToFolderMatchesServer | frontend/public/js/app.js:908-910 | for a title the server accepts, the folder name plus `.txt` is the server's file name |
| Frontend.StripTags | frontend/public/js/app.js:522 | every output character comes from the input, and a first character that is not `<` is kept |
| Frontend.StripTagsKeepStep | frontend/public/js/app.js:522 | a character that does not open a tag is kept in front of the result for the rest |
| Frontend.StripTagsOpenClose | frontend/public/js/app.js:522 | text starting with `<>` keeps both characters in front of the result for the rest |
| Frontend.StripTagsPrefix | frontend/public/js/app.js:522 | text before the first `<` passes through unchanged, ahead of the result for the rest |
| Frontend.StripTagsTag | frontend/public/js/app.js:522 | `<`, one or more characters other than `>`, then `>` is removed, and the scan goes on after it |
| Frontend.StripTagsEmptyTag | frontend/public/js/app.js:522 | `<>` is not a tag and both characters are kept |
| Frontend.StripTagsNoClose | frontend/public/js/app.js:522 | a text without `>` is left unchanged |
| Frontend.StripTagsAround | frontend/public/js/app.js:522 | plain text, a tag, then the rest: the plain text followed by the result for the rest |
| Frontend.TagFreeHasNoTag | frontend/public/js/app.js:522 | a tag-free string contains no `<`, then one or more non-`>` characters, then `>` |
| Frontend.TagFreeCons | frontend/public/js/app.js:522 | a kept character in front of a tag-free text leaves it tag-free unless it is a `<` with a later, not adjacent `>` |
| Frontend.StripTagsTagFree | frontend/public/js/app.js:522 | the tag-stripping pass leaves a tag-free string |
| Frontend.ToMarkdown | frontend/public/js/app.js:513-524 | the definition of `toMarkdown` (defined but never called in app.js) as four literal replacements then tag removal; its meaning is stated by the lemmas below |
| Frontend.ToMarkdownTagFree | frontend/public/js/app.js:513-524 | the result contains no `<`, then one or more non-`>` characters, then `>` |
| Frontend.ToMarkdownPlain | frontend/public/js/app.js:513-524 | the conversion is the identity on text without `<` |
| Frontend.ToMarkdownEmptyLine | frontend/public/js/app.js:518 | an empty `div` holding a `br` becomes exactly one line feed |
| Frontend.PrefixLines | frontend/public/js/app.js:704 | each non-empty line gains the prefix, empty lines stay empty, and the line count is kept |
| Frontend.SurroundSelection | frontend/public/js/app.js:694-716 | the definition of the text `surroundSelection` (defined but never called in app.js) inserts; its meaning is stated by the three lemmas below |
| Frontend.SurroundPrefixLines | frontend/public/js/app.js:700-705 | for a prefix without a line feed, with prefixOnly and a non-empty selection, the inserted text has as many lines as the selection, each being the prefixed line or empty |
| Frontend.SurroundPrefixUndo | frontend/public/js/app.js:700-705 | removing the prefix from each inserted line gives back the selection |
| Frontend.SurroundOtherCases | frontend/public/js/app.js:694-716 | nothing without a range; otherwise the selection sits between `before` and `after`, and an empty selection gives `before` (prefixOnly) or `before+after` |
| Frontend.IsPastedName | frontend/public/js/app.js:886 | the definition of a match of `/image_(\d{3})\.png/` |
| Frontend.PastedNames | frontend/public/js/app.js:886 | every match found has the form `image_`, three digits, `.png` |
| Frontend.EveryOccurrenceFound | frontend/public/js/app.js:886 | every occurrence of the pattern in the content is among the matches found |
| Frontend.PastedNamesOccur | frontend/public/js/app.js:886 | every match found occurs in the content |
| Frontend.MaxPastedNumber | frontend/public/js/app.js:887-891 | the largest number among the matches, or 0 when there are none: no match has a larger number, and a non-zero value is the number of some match |
| Frontend.PastedNumber | frontend/public/js/app.js:889 | the number read from a match is below 1000 |
| Frontend.NextPastedImage | frontend/public/js/app.js:884-893 | the next number is one more than the largest number of the matches; it exceeds the number of every occurrence of the pattern in the content; it is 1 or one more than the number of some occurrence; the file name is built from it |
| Frontend.PastedMaxAttained | frontend/public/js/app.js:886-891 | the largest number of the matches bounds the number of every occurrence in the content and, unless 0, is the number of one of them |
| Frontend.NextPastedNameFresh | frontend/public/js/app.js:884-893 | the name chosen for the next paste differs from every three-digit pasted name in the content (names past `image_999.png` are not matches; see PastedNumberingSaturates) |
| Frontend.ThousandthName | frontend/public/js/app.js:892-893 | the thousandth paste is named `image_1000.png`, with four digits |
| Frontend.NotPastedName | frontend/public/js/app.js:886 | a window not starting with `i`, or without `.` after its digits, is no match |
| Frontend.ThousandthNameUnmatched | frontend/public/js/app.js:886 | no window of `image_1000.png` is a match of the pattern |
| Frontend.PastedNumberingSaturates | frontend/public/js/app.js:884-893 | once the content holds `image_999.png`, the next paste is named `image_1000.png` whatever text is added later, that name included |
| Frontend.PastedImageName | frontend/public/js/app.js:892-893 | the definition of `image_${nextNum}.png` with the number zero-padded to three digits; its meaning is stated by PastedImageNameReadsBack |
| Frontend.PastedImageNameReadsBack | frontend/public/js/app.js:892-893 | the number is zero-padded to at least three digits that read back as the number; below 1000 the name is itself a match carrying that number |
| Frontend.RenderTopBar | frontend/public/js/app.js:917-939 | the definition of the buttons `renderTopBar` draws; its meaning is stated by the two lemmas below |
| Frontend.TopBarButtons | frontend/public/js/app.js:917-939 | in add and edit mode the formatting toolbar plus exactly Close and Save; in view mode exactly Add Article, Edit, Delete in that order when the selection is truthy, and Add Article alone otherwise |
| Frontend.ViewBarMembership | frontend/public/js/app.js:931-937 | in view mode Add Article comes first, Close and Save are never shown, and Edit and Delete are shown exactly when the selection is truthy, which is `onDelete`'s own guard |
| Frontend.UiState.constructor | frontend/public/js/app.js:8-15 | no articles, no selection, view mode, nothing unsaved, no creation step |
| Frontend.UiState.FetchArticles | frontend/public/js/app.js:854-863 | the list is replaced, a truthy selection not in it is cleared and any other is kept; afterwards a truthy selection is listed |
| Frontend.UiState.SelectArticle | frontend/public/js/app.js:89-95 | selects the title and returns to view mode |
| Frontend.UiState.OnAdd | frontend/public/js/app.js:256-261 | add mode with no selection, plus the state `renderAddArticleUI` sets (lines 332-334): editor step, nothing unsaved |
| Frontend.UiState.OnDelete | frontend/public/js/app.js:419-422 | changes nothing; a dialog is asked for iff the selection is truthy, and then about the selected title |
| Frontend.UiState.DeleteAnswered | frontend/public/js/app.js:366-380 | a successful DELETE clears the selection and returns to view mode; a failed one changes nothing |
| Frontend.UiState.OnEdit | frontend/public/js/app.js:837-841 | edit mode, everything else kept |
| Frontend.UiState.EditorOpened | frontend/public/js/app.js:832-834 | edit mode with nothing unsaved |
| Frontend.UiState.EditorInput | frontend/public/js/app.js:290-296 | an input event marks the page unsaved and changes nothing else |
| Frontend.UiState.SaveAnswered | frontend/public/js/app.js:475-488 | a successful save selects the slug and returns to view mode; a failed one changes nothing |
| Frontend.UiState.OnClose | frontend/public/js/app.js:425-442 | in add or edit mode a non-empty content or title asks to save and keeps the mode; every other case returns to view mode |
| Frontend.UiState.DiscardChanges | frontend/public/js/app.js:409-415 | declining to save returns to view mode and keeps the rest |
| Frontend.UiState.PasteHandled | frontend/public/js/app.js:874-875 | the definition of the paste handler's two guards; OnPaste states what follows from them |
| Frontend.UiState.OnPaste | frontend/public/js/app.js:873-906 | an upload is sent iff the mode is add or edit, the add editor has been opened and an image is pasted; it goes to the selection's segment under the next pasted-image name |

## Left out

- Flask routing, JSON decoding and file I/O are not modelled. The article directory is a map
  from file name to content, and the image directory is a set of names. A request body whose
  `title` is not a string is not modelled.
- Writing in text mode is modelled as storing the content verbatim, which is what it does where
  the line separator is `\n`; reading translates line ends (`Backend.ReadText`).
- Backend.ArticleDirectory.CreateArticle: a non-string `content` is not modelled. `open(path, 'w')`
  creates the file before `f.write` fails on it, so that 500 answer leaves an empty file behind.
- Backend.ArticleDirectory.UpdateArticle: a non-string `content` is not modelled. The new file is
  truncated before `f.write` fails, so that 500 answer empties it (the article itself when the
  old and new names coincide) and keeps the old file.
- `os.listdir` order is a parameter of `Backend.ListArticles` (any order that lists each file
  once). `os.path.exists` being true for directories is not modelled: the directory holds only
  files.
- Backend.SortByLower: the stability of Python's sort (equal lower-cased titles keep the
  `os.listdir` order) is not stated. Only sortedness and permutation are.
- Backend.SplitExt: `os.path.splitext` looks only at the last path component; the model has no
  path separators, which matches the names `secure_filename` returns (they never hold `/`).
- `werkzeug.secure_filename` is a foreign library. Its result is the `securedName` input of
  `Backend.ImageDirectory.UploadImage`, and `file.save` is adding the name to the set. When
  `secure_filename` returns the empty string, the path names the directory itself; that case is
  not modelled.
- The `PUT`/`DELETE` URL segment is modelled after URL decoding. `encodeURIComponent` and
  Flask's decoding are not modelled, apart from a null selection becoming the segment `null`.
- Case mapping and whitespace are ASCII only. JavaScript `toLowerCase`, `trim` and `\s`, and
  Python `lower` and `strip`, also act on non-ASCII characters; that is not modelled.
- All DOM construction and rendering is presentation and is not modelled. This includes
  `renderSidebar`, `renderContentArea`, the editor builders, modals, `addCopyButtons` and
  `showSaveConfirmation`. `Frontend.RenderTopBar` keeps only which buttons appear, and in
  what order.
- `fetch` and the ordering of async continuations are event-loop concurrency. Each response is
  modelled as a separate call: `UiState.FetchArticles`, `UiState.DeleteAnswered` and
  `UiState.SaveAnswered`. Races between stale responses are not modelled.
- `execCommand`, the selection and range APIs, `insertAtCursor` and `handleToolbar` are browser
  APIs. `Frontend.SurroundSelection` models only the text that would be inserted.
- Prism highlighting, the clipboard API, `setTimeout`, `prompt` and `alert` are
  foreign calls. An alert is the `Alert` outcome of `Frontend.SaveRequest`.
- `UiState.OnPaste` takes whether the clipboard holds an image as a parameter, and only the
  first image item is handled, as the `break` at frontend/public/js/app.js:903 makes it. The
  editor lookup at line 877 is assumed to succeed in add and edit mode. The answer to the upload
  and the inserted Markdown are not modelled.
- The first `fetchArticles` declaration (frontend/public/js/app.js:60) is shadowed by the later
  one and is not modelled.
- The title field's value, `titleInput.value || titleInput.innerText`, is the `titleField`
  parameter of `Frontend.SaveRequest`.
- The editors' own paste handlers (frontend/public/js/app.js:299-316 and 800-817) and the
  toolbar's image button (app.js:629-650) upload the file under its own name. They are not
  modelled; only the upload of the document-level paste handler is. A paste into an editor
  reaches both that editor's handler and the document-level one.
