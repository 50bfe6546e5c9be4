# Checksnapsavevercel — a verified model of its pure core

Checksnapsavevercel downloads media from social sites (Facebook, Instagram,
TikTok, Twitter/X, YouTube) by scraping helper sites such as SnapSave,
Snaptik, Y2Mate and Snapany. Most of the code is network glue. The Dafny
project models the sequential logic that decides what the user gets back:

- **the SnapApp deobfuscation pipeline** (`dist/index.mjs`). The helper
  sites hide their HTML inside a script call. `getEncodedSnapApp` cuts the
  six arguments out of the call. `decodeSnapApp` splits the payload into
  separator-delimited groups. It replaces each key letter by its index and
  reads each group as a numeral in base `e`. It subtracts `t` to get one
  UTF-16 code unit per group. It then reads the code units as bytes and
  decodes them as UTF-8 (RFC 3629, section 3). `getDecodedSnapSave` and
  `getDecodedSnaptik` cut the assigned HTML out of the result and delete
  its backslashes.
  - modules `SnapApp`, `SnapPage` and `Utf8`;
  - `SnapAppEncoding` and `SnapPageEncoding` define the obfuscation the
    decoder undoes. They prove that decrypting an obfuscated page gives its
    HTML back.
- **quality scoring and labelling** (`getQualityScore`, `getQualityLabel`,
  and the older score of `dist/index.mjs`); module `Quality`.
- **the selection rules of `snapsave`** (`src/index.ts`): TikTok link
  ranking; table rows and cards; the `&dl=1` de-duplication;
  Instagram-all versus Facebook-best; `extractDuration`. Module
  `Selection`.
- **the media rules of the enhanced downloader**
  (`src/enhanced-downloader.ts` and its copy in `dist/index.mjs`):
  - platform detection;
  - the best-quality pick and the highest-quality `reduce`;
  - the photo and video lists of `downloadAllPhotos` and
    `downloadAllMedia`.

  Module `Media`.
- **the string helpers of `src/utils.ts`**: file names, photo links, bulk
  instructions and thumbnails; module `Utils`. The URL normaliser and the
  YouTube video-id extractor of `test-youtube-urls.js` are in module `Urls`.
- **the YouTube helpers** (`src/youtube-downloader.ts`):
  - `formatDuration`;
  - the Y2Mate and Snapany link loops and their best-quality reductions;
  - `extractFormatsFromPlayerResponse`;
  - the format selection of `downloadYouTubeVideo`.

  Module `YouTube`.

Shared pieces:

- `Ranking`: JavaScript's stable `sort` (largest key first), `filter`,
  `find`, and a strict-`>` `reduce`. Each is proved to agree with "the
  first element of the largest key".
- `Text`: `indexOf`, `split`, `join`, `trim`, `Number`/`parseInt`, ASCII
  `toLowerCase`.
- `Wrappers`: `Option`.

A thrown JavaScript error (a missing marker, no links found) is `None`. An
absent string field is `""`, because the code reads such fields only
through `||` and `===`, where `undefined` and `""` behave alike.

Where the code loops or pushes into a local array, the model is a `method`
with a loop. It is proved equal to a specification function, and the
lemmas state what that function means. Examples: `decodeSnapApp`'s scan,
the inner `decode`, the Y2Mate/Snapany `while (regex.exec)` loops,
`extractFormatsFromPlayerResponse`, and the `.each` collectors of
`snapsave`.

`decodeSnapApp` decodes the piece of the payload after the last separator
too (dist/index.mjs:45-55): the loop runs while `i < len` and decodes
whatever it gathered. A separator at the very end opens no extra group.
`SnapApp.Groups` and `SnapApp.GroupsSplit` state this.

## Model

| member | source | states |
|---|---|---|
| SnapApp.AlphabetIndexCorrect | dist/index.mjs:29-33 | the 64-letter digit alphabet `0-9a-zA-Z+/` has distinct letters; `indexOf` finds each letter at its own position and finds nothing else |
| SnapApp.WindowLength | dist/index.mjs:30 | `g.slice(0, e2)` keeps at most 64 letters |
| SnapApp.ReduceValueNumeral | dist/index.mjs:32-36 | the `reduce` over the reversed string weights position `c` by `e2^c`; it equals reading the string as a positional numeral. A letter outside the window adds 0 but still takes up its position |
| SnapApp.DecodeNumeral | dist/index.mjs:28-43 | the inner `decode(d, e2, 10)` returns a canonical decimal string (non-empty, no leading zero unless it is "0"); its value is the numeral's value, or 0 when that is not positive |
| SnapApp.Groups | dist/index.mjs:45-51 | the groups are empty exactly when the payload is empty |
| SnapApp.GroupsNoSeparator | dist/index.mjs:47 | no group holds the separator |
| SnapApp.GroupsSplit | dist/index.mjs:45-51 | the groups are the pieces of `h.split(n[e])`, except that a trailing separator opens no empty last group; the piece after the last separator is decoded |
| SnapApp.GroupsStep | dist/index.mjs:46-51 | one turn of the scan takes the text up to the next separator (or the end) and resumes after it |
| SnapApp.SubstituteExpand | dist/index.mjs:52-53 | when no key letter is a decimal digit, the successive global replacements replace each character by the index of its first occurrence in `n`; other characters are unchanged, and inserted digits are never touched again |
| SnapApp.Codes | dist/index.mjs:54 | one code unit per group, in group order |
| SnapApp.ToBytes | dist/index.mjs:58 | `new Uint8Array` keeps one byte per code unit |
| SnapApp.DecodeGroup | dist/index.mjs:52-54 | the loop body gives the group's code unit: `(decoded value - t)` reduced modulo 2^16, with `NaN` giving 0 |
| SnapApp.ScanGroup | dist/index.mjs:46-50 | the inner `while` collects exactly the text from the start to the next separator or the end |
| SnapApp.NextCode | dist/index.mjs:45-54 | one pass of the outer loop emits the next group's code and moves past its separator |
| SnapApp.ScanPayload | dist/index.mjs:44-55 | the outer loop emits the codes of all the groups of `h`, in order |
| SnapApp.DecodeSnapApp | dist/index.mjs:24-65 | throws exactly when there are no arguments, or when the payload is non-empty and the key letters are missing; otherwise it returns the UTF-8 reading of the code units' low bytes |
| SnapAppEncoding.BaseDigitsValue | dist/index.mjs:38-41 | rendering a number in base `e` and reading it back gives the number |
| SnapAppEncoding.ExpandSpell | dist/index.mjs:52-53 | a group spelled with the key letters reads back, letter by letter, as its decimal digits |
| SnapAppEncoding.NumeralDigitString | dist/index.mjs:32-36 | in a base up to 10, the decimal digit characters read as their own values |
| SnapAppEncoding.GroupCodeEncodeByte | dist/index.mjs:52-54 | a group spelling `b + t` in base `e` decodes to the byte `b` |
| SnapAppEncoding.DecodeEncodedBytes | dist/index.mjs:44-55 | the groups of an obfuscated payload give back its bytes, in order |
| SnapAppEncoding.DecodeSnapAppInverts | dist/index.mjs:24-65 | for every usable key, `decodeSnapApp` on the obfuscated payload returns the original text, unless that text starts with a byte order mark. The second argument and any arguments after the fifth do not matter |
| SnapAppEncoding.DecodeSnapAppPayload | dist/index.mjs:24-65 | with the key arguments present, the result is the UTF-8 reading of the payload's bytes |
| Utf8.EncodeChar | dist/index.mjs:59 | a scalar value encodes to 1 to 4 bytes (RFC 3629, section 3) |
| Utf8.DecodeStep | dist/index.mjs:59 | each decoder step consumes at least one byte and no more than remain |
| Utf8.Decode | dist/index.mjs:59 | the decoder never yields more characters than there are bytes |
| Utf8.DecodeStepEncodeChar | dist/index.mjs:59 | decoding the front of an encoded character gives the character and consumes exactly its bytes |
| Utf8.DecodeEncode | dist/index.mjs:59 | decoding inverts encoding |
| Utf8.TextDecodeEncode | dist/index.mjs:56-63 | `TextDecoder` returns the encoded text unless the text starts with a byte order mark |
| Utf8.TextDecodeDropsBom | dist/index.mjs:59 | a leading byte order mark is dropped |
| Utf8.DecodeAscii | dist/index.mjs:58-59 | ASCII bytes pass through unchanged, one character each |
| SnapPage.Cut | dist/index.mjs:67 | `split(start)[1].split(end)[0]` throws exactly when `start` does not occur |
| SnapPage.CutFrom | dist/index.mjs:67 | text placed right after the only `start` and followed by `end` is cut back out |
| SnapPage.GetEncodedSnapApp | dist/index.mjs:66-68 | throws exactly when the call marker is missing |
| SnapPage.EncodedArgumentCount | dist/index.mjs:67 | there is one more argument than there are commas in the cut text, and no argument holds a `"` |
| SnapPage.CleanPlain | dist/index.mjs:67 | a plain argument comes back from both its quoted and its unquoted spelling |
| SnapPage.EncodedSnapAppFrom | dist/index.mjs:66-68 | arguments written after the first call marker and before the first `))` come back cleaned, in order |
| SnapPage.RemoveEscapesDeletes | dist/index.mjs:70 | `replace(/\\(\\)?/g, "")` deletes every backslash and keeps every other character |
| SnapPage.RemoveEscapesIdempotent | dist/index.mjs:70 | the result holds no backslash, and deleting again changes nothing |
| SnapPage.GetDecoded | dist/index.mjs:69-74 | throws exactly when the marker is missing |
| SnapPage.DecodedHasNoEscapes | dist/index.mjs:69-74 | the result is the cut text with its backslashes deleted; it holds no backslash, and cleaning it again changes nothing |
| SnapPage.DecodedFrom | dist/index.mjs:69-74 | HTML assigned after the only marker and ended by the terminator is returned as it is |
| SnapPage.DecryptSnapSave | dist/index.mjs:75-77 | the three steps in sequence; a result never holds a backslash |
| SnapPage.DecryptSnaptik | dist/index.mjs:78-80 | the same with the Snaptik marker |
| SnapPage.DecryptWith | dist/index.mjs:75-80 | the pipeline shared by both |
| SnapPageEncoding.ArgumentsFromPage | dist/index.mjs:66-68 | the six call arguments of a page come back unquoted and in order |
| SnapPageEncoding.DecryptFrom | dist/index.mjs:75-80 | when the cut arguments carry a payload obfuscated under a usable key, decryption cuts the HTML from the decoded script |
| SnapPageEncoding.PageDecrypts | dist/index.mjs:75-80 | a page carrying an obfuscated script decrypts to what `getDecoded…` cuts from that script |
| SnapPageEncoding.DecryptInverts | dist/index.mjs:66-80 | `decryptSnapSave`/`decryptSnaptik` give back the HTML of any page built with a usable key and framed markers |
| Quality.FirstMatchLeftmost | src/index.ts:99-116 | the scan `res.match` performs reports the leftmost position where `/(\d+)[x×](\d+)/` or `/(\d+)p/` matches, and nothing exactly when no position matches |
| Quality.FirstMatchStart | src/index.ts:99-116 | the reported match starts a whole run of digits: no digit comes just before it |
| Quality.FirstMatchAt | src/index.ts:99-116 | a match with no match before it is the one reported |
| Quality.TaggedHeightIs | src/index.ts:112-116 | `parseInt(pMatch[1])` is absent exactly when `/(\d+)p/` matches nowhere; otherwise it is the value of the whole run of digits, not preceded by a digit, that ends at the leftmost `p` following digits |
| Quality.PixelHeightIs | src/index.ts:99-101 | `parseInt(pixelMatch[2])` is absent exactly when `/(\d+)[x×](\d+)/` matches nowhere; otherwise it is read at the leftmost match, which starts a whole run of digits |
| Quality.PixelForm | src/index.ts:99-101 | `WxH` after a text where no match starts gives the height `H`, read in full |
| Quality.TaggedForm | src/index.ts:112-114 | `Np` after a text where no match starts gives `N`, read in full |
| Quality.QualityScoreEmpty | src/index.ts:80 | the empty resolution scores 0 |
| Quality.UltraHdFirst | src/index.ts:83-86 | `4k`, `2160` or `uhd`, in any case, scores 4000 before any other rule |
| Quality.ScoreIgnoresCase | src/index.ts:83 | a text and its lower-cased form score the same |
| Quality.HdIsFullHd | src/index.ts:90-91 | a text holding `hd` that is not 4K or 2K scores 1080 |
| Quality.Score720HasNoHd | src/index.ts:91 | a score of 720 never comes from `hd`, so that test on line 91 is dead |
| Quality.PixelBucket | src/index.ts:99-109 | a `WxH` text without the resolution words is bucketed by its height |
| Quality.WideScreenScore | src/index.ts:79-109 | `1920x1200` holds none of the resolution words and its height 1200 falls in the 1080 bucket, so it scores 1080 |
| Quality.Tier | src/index.ts:127-136 | every score has one of the eight tiers |
| Quality.LabelOfTier | src/index.ts:127-136 | the label is the one of the score's tier, from "Standard" up to "4K Ultra HD" |
| Quality.LabelMonotone | src/index.ts:127-136 | a higher score never gets a lower tier |
| Quality.LabelsDistinct | src/index.ts:127-136 | equal labels mean equal tiers |
| Quality.LegacyScoreValues | dist/index.mjs:229-237 | the older score is one of the fixed keyword scores or the number of the first `Np`; it is 0 exactly for the empty text or a `0p` without keywords |
| Ranking.FirstMaxIndex | src/enhanced-downloader.ts:326 | the position of the earliest element with the largest key |
| Ranking.FirstMaxUnique | src/enhanced-downloader.ts:326 | there is only one such position |
| Ranking.SortPermutes | src/enhanced-downloader.ts:326 | the stable descending sort keeps every element, each as often as before |
| Ranking.SortSorted | src/enhanced-downloader.ts:326 | the sort gives the largest key first |
| Ranking.SortHead | src/index.ts:233-236 | the head of the sorted list is the earliest element with the largest key |
| Ranking.FindFilter | src/enhanced-downloader.ts:329 | `find` gives the head of `filter`, or nothing |
| Ranking.FilterIncreasing | src/enhanced-downloader.ts:166 | filtering keeps a strictly increasing measure strictly increasing |
| Ranking.FilterMapIs | src/youtube-downloader.ts:400-426 | a filter-then-map applies the map to each kept element, in order |
| Ranking.FilterSort | src/enhanced-downloader.ts:326-329 | filtering the sorted list is sorting the filtered list |
| Ranking.FindSorted | src/enhanced-downloader.ts:326-330 | searching the sorted list finds the earliest element of the largest key among those that pass |
| Ranking.ReduceBestIsFirstMax | src/enhanced-downloader.ts:55-57 | the strict-`>` `reduce` returns an earliest maximum of the start and the list |
| Ranking.ReduceBestFirstMax | src/enhanced-downloader.ts:55-57 | the `reduce` is the first element of largest key of `[start] + list`: the start survives ties |
| Ranking.ReduceAgreesWithSort | src/youtube-downloader.ts:282-286 | started from the head, the `reduce` agrees with the head of the stable sort |
| Media.PlatformPriority | src/enhanced-downloader.ts:311-317 | the platform is tiktok, then twitter/x.com, then facebook, then instagram, each only when no earlier test passes |
| Media.PlatformNamesAgree | dist/index.mjs:142-148 | the two builds name every platform alike except TikTok |
| Media.BestQualityMediaIs | src/enhanced-downloader.ts:322-334 | nothing exactly for an empty list; otherwise the earliest video of largest quality when any video exists, else the earliest item of largest quality (missing quality is 0) |
| Media.BestVideoQuality | dist/index.mjs:149-155 | when a video exists, the pick is a video whose quality is at least every video's |
| Media.HighestQualityIs | src/enhanced-downloader.ts:55-57 | the `reduce` gives an item whose quality is at least every item's; it keeps `bestMedia` unless some quality is strictly larger |
| Media.EnhancedDownloadIs | src/enhanced-downloader.ts:43-79 | fails exactly when there is no media or the best item has no address; otherwise it links to the best item, keeps its quality and names the platform; its type is the best item's or `video`; title, description, duration, author and thumbnail are the post's own, else the best item's, else the default (`<platform> Media`, empty, or the preview); the file is named from the title chain and the type of the earliest item of largest quality among the best item and the media |
| Media.QualityOr500 | src/enhanced-downloader.ts:163 | `quality \|\| 500` is never 0 |
| Media.Numbered | src/enhanced-downloader.ts:155 | numbering keeps one entry per item |
| Media.NumberedKept | src/enhanced-downloader.ts:155-166 | after the address filter the numbers lie in 1..k and strictly increase |
| Media.PhotoNumbering | src/enhanced-downloader.ts:153-166 | photos are numbered 1..k over the image items before the address test; kept numbers strictly increase, kept addresses start with `http`, and no kept quality is 0 |
| Media.PhotoSource | src/enhanced-downloader.ts:153-166 | each kept photo is the entry made for the image item at its number |
| Media.VideoNumbering | src/enhanced-downloader.ts:256-273 | the same for videos over the `video` items |
| Media.VideoSource | src/enhanced-downloader.ts:256-273 | each kept video is the entry made for the video item at its number |
| Media.DownloadAllPhotosResult | src/enhanced-downloader.ts:168-191 | fails exactly when no photo is kept; otherwise `totalPhotos` is the number of kept photos |
| Media.DownloadAllMediaResult | src/enhanced-downloader.ts:275-299 | fails exactly when both lists are empty; otherwise `totalItems` is their combined length |
| Media.SamePhotoLists | src/enhanced-downloader.ts:241-254 | `downloadAllMedia` reports the photo list of `downloadAllPhotos` |
| Selection.DurationAt | src/index.ts:62 | a match at the start is `m:ss` or `mm:ss` and a prefix of the text |
| Selection.DurationPosition | src/index.ts:62 | the match position found lies in the text and matches |
| Selection.DurationPositionLeftmost | src/index.ts:62 | the position is the leftmost one that matches |
| Selection.ExtractDurationIs | src/index.ts:60-67 | "" exactly when no position matches; otherwise the well-formed duration at the leftmost matching position |
| Selection.TikTokLinksAre | src/index.ts:211-230 | one link per download anchor, in page order |
| Selection.CollectLinks | src/index.ts:211-230 | the `.each` pushes exactly those links |
| Selection.HdSearchFails | src/index.ts:241-248 | when the sorted head is below 1000, no link reaches 1000 |
| Selection.PickTikTok | src/index.ts:233-248 | nothing exactly when no link was collected; otherwise the earliest link of largest quality, so the HD search never changes the pick |
| Selection.DedupIs | src/index.ts:678-680 | the text is unchanged exactly when it holds no `&dl=1&dl=1`; otherwise the first occurrence is collapsed and the text gets five characters shorter |
| Selection.RowKindIs | src/index.ts:686-697 | a row is an image exactly when it has no resolution, or on Instagram when its text mentions a photo or an image |
| Selection.CollectRows | src/index.ts:668-704 | one item per table row, in order |
| Selection.CollectCards | src/index.ts:736-757 | one item per card, in order |
| Selection.CardHdLabel | src/index.ts:753 | an `HD` card scores 1000, which is labelled "HD (720p)" rather than "Full HD (1080p)" |
| Selection.SelectItemsIs | src/index.ts:706-732 | no items add nothing; off Instagram exactly one item, the earliest of largest quality; on Instagram all items, sorted and each labelled by its own quality |
| Selection.ProgressFallback | src/index.ts:673-676 | the written and the intended forms agree unless the test passes and `exec` fails |
| Selection.ProgressFallbackExample | src/index.ts:673-676 | `get_progressapi` makes the written form give the host followed by "undefined" |
| Selection.NoCaptureInShort | src/index.ts:675 | a text shorter than the literal part of the pattern has no capture |
| Utils.DropReserved | src/utils.ts:26 | removing reserved characters never lengthens the text |
| Utils.DropSpecial | src/utils.ts:27 | what remains holds only word characters, white space and `-` |
| Utils.Prefix | src/utils.ts:31 | `substring(0, n)` is a prefix of length at most `n`; it is the whole text when the text is short enough |
| Utils.Timestamp | src/utils.ts:19-23 | the time stamp has at most 19 characters |
| Utils.CleanTitleWellFormed | src/utils.ts:26-31 | a cleaned title has at most 100 characters, all ASCII letters, digits, `_`, `-` or spaces, does not start with a space and has no two spaces in a row |
| Utils.FilenameWithExtension | src/utils.ts:40-42 | with an extension and a non-empty clean title, the name is the title, a dot and the extension |
| Utils.FilenameDefaultExtension | src/utils.ts:45-52 | without an extension: video→mp4, image→jpg, zip→zip, any other type that names no `Object.prototype` member→mp4 |
| Utils.FilenameFromTimestamp | src/utils.ts:19-23 | a title cleaning to nothing gives `video_<time>.<extension or raw type>` |
| Utils.BlankTitleCleansEmpty | src/utils.ts:19-37 | an empty or white-space title cleans to nothing, so the early test agrees with the later one |
| Utils.PhotoDownloadLinks | src/utils.ts:58-71 | the same length and order; `downloadLink` is the address, `downloadAttribute` is `download="<filename>"` |
| Utils.AttributeNamesFile | src/utils.ts:67 | the file name is the text between `download="` and the final quote |
| Utils.InstructionCount | src/utils.ts:76-90 | 4 lines up to ten photos and 6 above; the first four lines are the same either way |
| Utils.InstructionsAgree | src/utils.ts:76-90 | for counts on the same side of ten, only the count line and the warning line differ |
| Utils.FixThumbnailUnproxied | src/utils.ts:13-16 | an address without the proxy prefix comes back unchanged |
| Utils.FixThumbnailProxied | src/utils.ts:13-16 | a proxied address is decoded from what follows the prefix |
| Urls.TwitterUnchanged | test-youtube-urls.js:33-38 | a Twitter/X address comes back unchanged |
| Urls.StatusPageUnchanged | src/utils.ts:8-11 | every x.com status page comes back unchanged |
| Urls.WwwInserted | test-youtube-urls.js:33-38 | a two-label host without `www.` gains it after the scheme, whatever its path |
| Urls.NormalizeShape | src/utils.ts:8-11 | the result is the address itself or the address with `www.` after its scheme |
| Urls.NormalizeIdempotent | src/utils.ts:8-11 | normalising twice is normalising once |
| Urls.WwwRefused | test-youtube-urls.js:37 | a host starting with `www.` is left alone |
| Urls.ExtractVideoId | test-youtube-urls.js:12-31 | a result is always eleven characters of `[A-Za-z0-9_-]` |
| Urls.FindIdLeftmost | test-youtube-urls.js:20-27 | the match is the leftmost position where an alternative matches, and none exactly when no position does |
| Urls.VideoIdShape | test-youtube-urls.js:12-31 | the result is absent or an 11-character id |
| Urls.NoHostNoId | test-youtube-urls.js:30 | without `youtu.be/` or `youtube.com/` the result is absent |
| Urls.ShortFormOnly | test-youtube-urls.js:14-17 | once `youtu.be/` occurs, only the short form is tried: the result is the id after the leftmost `youtu.be/` that has one, and absent when none has |
| Urls.FindIdAt | test-youtube-urls.js:14 | a match at a position with none before it is the one `match` reports |
| Urls.ShortForm | test-youtube-urls.js:14-17 | `youtu.be/` and an id give that id when no earlier position matches, whatever follows |
| Urls.WatchForm | test-youtube-urls.js:19-23 | on a `youtube.com/` address, `?v=` or `&v=` and an id give that id when no earlier position matches either |
| Urls.PathForm | test-youtube-urls.js:25-27 | with no `?v=`/`&v=` id anywhere, `/embed/`, `/v/` or `/shorts/` and an id give that id when no earlier position matches |
| Urls.Sample01 | test-youtube-urls.js:44 | `https://www.youtube.com/watch?v=dQw4w9WgXcQ` gives `dQw4w9WgXcQ` |
| Urls.Sample02 | test-youtube-urls.js:45 | `https://youtube.com/watch?v=dQw4w9WgXcQ` gives `dQw4w9WgXcQ` |
| Urls.Sample03 | test-youtube-urls.js:46 | `https://m.youtube.com/watch?v=dQw4w9WgXcQ` gives `dQw4w9WgXcQ` |
| Urls.Sample04 | test-youtube-urls.js:47 | `https://youtu.be/dQw4w9WgXcQ` gives `dQw4w9WgXcQ` |
| Urls.Sample05 | test-youtube-urls.js:48 | `https://www.youtube.com/embed/dQw4w9WgXcQ` gives `dQw4w9WgXcQ` |
| Urls.Sample06 | test-youtube-urls.js:49 | `https://www.youtube.com/v/dQw4w9WgXcQ` gives `dQw4w9WgXcQ` |
| Urls.Sample07 | test-youtube-urls.js:50 | `https://www.youtube.com/shorts/dQw4w9WgXcQ` gives `dQw4w9WgXcQ` |
| Urls.Sample08 | test-youtube-urls.js:51 | `https://youtube.com/watch?v=dQw4w9WgXcQ&t=30s` gives `dQw4w9WgXcQ` |
| Urls.Sample09 | test-youtube-urls.js:52 | `https://www.youtube.com/watch?v=dQw4w9WgXcQ&feature=share` gives `dQw4w9WgXcQ` |
| Urls.Sample10 | test-youtube-urls.js:53 | `https://youtu.be/dQw4w9WgXcQ?t=30` gives `dQw4w9WgXcQ` |
| Urls.Sample11 | test-youtube-urls.js:54 | `https://www.youtube.com/watch?feature=share&v=dQw4w9WgXcQ&t=30s` gives `dQw4w9WgXcQ` |
| Urls.Sample12 | test-youtube-urls.js:55 | `https://youtube.com/watch?t=30s&v=dQw4w9WgXcQ&feature=share` gives `dQw4w9WgXcQ` |
| Urls.WatchBeforeEmbed | test-youtube-urls.js:20-27 | a `?v=` id wins over an `/embed/` id written before it |
| Urls.WatchAfterQuiet | test-youtube-urls.js:22-23 | the first `?v=` followed by an id gives that id |
| YouTube.Clock | src/youtube-downloader.ts:437-440 | hours·3600 + minutes·60 + seconds gives the input back, with minutes and seconds below 60 |
| YouTube.Pad2Facts | src/youtube-downloader.ts:443-445 | below 100, `padStart(2, '0')` is two digits of the same value |
| YouTube.FormatDurationRoundTrip | src/youtube-downloader.ts:437-447 | `H:MM:SS` from an hour on and `M:SS` below; the pieces are digits, all but the first exactly two, the first canonical; reading them back gives the seconds |
| YouTube.Y2MateFormatIs | src/youtube-downloader.ts:232-257 | one of five quality names with its resolution; 4K/2160 wins over every other mark and 720p is the default; audio with the MP3 type exactly when the text says `Audio` |
| YouTube.Y2MateLink | src/youtube-downloader.ts:232-265 | the loop body pushes the classification of one match |
| YouTube.Y2MateLinks | src/youtube-downloader.ts:228-266 | one link per match, in page order |
| YouTube.SnapanyFormatIs | src/youtube-downloader.ts:333-347 | `HD`/`1080` gives 1080p, then 480p needs `480` without `720`, else 720p; always an MP4 video |
| YouTube.SnapanyLink | src/youtube-downloader.ts:333-355 | the loop body pushes the classification of one match |
| YouTube.SnapanyLinks | src/youtube-downloader.ts:329-356 | one link per match, in page order |
| YouTube.BestByReduce | src/youtube-downloader.ts:282-286 | while no rank is `NaN`, the `parseInt` comparison is the strict-`>` fold on numbers |
| YouTube.Y2MateRanks | src/youtube-downloader.ts:283-285 | `4K` ranks 4000 and `Np` ranks N |
| YouTube.SnapanyRanks | src/youtube-downloader.ts:373-375 | `Np` ranks N |
| YouTube.Y2MateExtract | src/youtube-downloader.ts:228-286 | no links is an error; otherwise every link, in order, and as best the earliest link of largest rank |
| YouTube.SnapanyExtract | src/youtube-downloader.ts:329-376 | the same for Snapany, where the first maximum wins |
| YouTube.ExtractFormats | src/youtube-downloader.ts:396-432 | the two `forEach` calls push exactly the kept formats, converted, plain ones first |
| YouTube.PlayerFormatsIs | src/youtube-downloader.ts:400-426 | entries with neither address nor cipher are skipped; plain formats come before adaptive ones, each converted in order |
| YouTube.RawFormatIs | src/youtube-downloader.ts:400-426 | a kept entry has an address; plain formats are videos; an adaptive one is audio exactly when its type mentions `audio`; a missing type reads as MP4 |
| YouTube.SelectFormatIs | src/youtube-downloader.ts:467-476 | `best` and unknown requests give the best link; `720p`/`480p` give the first link of exactly that quality, else the best |

## Left out

- HTTP fetches, the cheerio DOM queries and the per-site selectors. The model starts from what they return: the page text, anchors, table rows, cards, regular-expression matches as (address, text) pairs, and player-response format lists.
- The response cache and its TTL. The clock enters only as the ISO time string that `generateCleanFilename` reads.
- `batchDownload`, the background call in `getDownloadInfo`, `downloadDirectVideo`, `extractCleanTitle` and `extractAuthor`. They are concurrency, stream and file I/O, or backtracking regular expressions built at run time.
- `enhancedDownload` when `snapsave` fails or throws (src/enhanced-downloader.ts:39-41, 81-86): the call is network I/O, and the model starts from the post it returned.
- The URL classifier regular expressions of src/utils.ts:1-3. Only `twitterRegex` (line 4) is modelled, because `normalizeURL` uses it.
- `new RegExp(n[j], "g")` is read as the literal letter. Key letters that are regular-expression metacharacters are not modelled.
- `Math.pow`/`Math.floor` in `decode` are exact integer arithmetic. Doubles lose precision above 2^53; that rounding is not modelled.
- `TextDecoder`: a WHATWG-style UTF-8 decoder (U+FFFD for malformed input, a leading byte order mark dropped, no throw). The `catch` branch of `fixEncoding` is unreachable in this model.
- `decodeURIComponent` in `fixThumbnail` is the parameter `decode`.
- `toLowerCase` folds ASCII letters only. `Number` and `parseInt` read decimal integers only: hexadecimal, exponents and fractions are not modelled.
- `Media.BestQualityMediaIs` and the other sort results model `sort` on a copy of the list, as values. The in-place sorts of `downloadLinks` and `mediaItems` in src/index.ts (233, 707) act on local arrays, so nothing else observes them.
- `YouTube.Clock`: `formatDuration` for negative or fractional seconds is not modelled; seconds are natural numbers.
- The thrown "No download links found" errors of the Y2Mate and Snapany extractors are `None`.
- `Selection.PickTikTok`: the write to `bestLink.quality` (src/index.ts:246) is not modelled, because the branch that writes it never runs (`Selection.HdSearchFails`).
- SnapApp.DecodeSnapApp: `h` and `n` are read as strings of Unicode scalar values. The code indexes them in UTF-16 code units (`h.length`, `h[i]`, `n[e]`, `n[j]` and `d.split("")`, dist/index.mjs:32-50). So a character above U+FFFF counts once here where the code counts two code units, and a lone surrogate in `h` or `n` cannot be expressed.
- Utils.FilenameDefaultExtension: `DefaultExtension` does not model the plain-object lookup `defaultExtensions[type]` (src/utils.ts:46-52, dist/index.mjs:21) for a type that names an `Object.prototype` member. For `constructor`, `toString` or `__proto__` the lookup finds that member, so the code writes its string form (such as `function Object() { [native code] }` or `[object Object]`) as the extension, where the model writes `mp4`.
- Selection.CollectRows: each row's link uses the corrected line 675 (`Selection.ProgressUrl`). For a target that passes the case-blind test but has no case-sensitive capture, the code as written stores `https://snapsave.appundefined` instead (`Selection.ProgressUrlAsWritten`, `Selection.ProgressFallbackExample`).

## Findings

| source | as written | input that shows it | evidently intended | confidence | as-written member | corrected member |
|---|---|---|---|---|---|---|
| src/index.ts:675 | `"https://snapsave.app" + /get_progressApi\('(.*?)'\)/.exec(_url)?.[1] \|\| _url`: `+` binds before `\|\|`, and the concatenation is never falsy, so a failed `exec` yields `https://snapsave.appundefined` | `get_progressapi` (passes the case-blind test on line 673; the case-sensitive `exec` finds no capture) | fall back to `_url` when there is no capture | not executed | Selection.ProgressFallbackExample | Selection.ProgressFallback |
