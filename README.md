# Video and thumbnail upload handlers, modelled in Dafny

The system is a small video-hosting backend. Its request handlers accept an authenticated
upload, check it, store it, and write its address back into the video's record. This project
models three of those handlers:

- `handlerUploadVideo` (`src/api/videos.ts`). It runs the gates in order:
  1. the route's video ID;
  2. the bearer token;
  3. the record exists;
  4. the caller owns it;
  5. the `video` form field holds a file;
  6. the file is at most 1 GiB;
  7. its declared type is exactly `video/mp4`.

  It then names the object `<64 hex digits>.mp4` from 32 random bytes and stages the bytes at
  `/tmp/<key>`. It writes that file to the object store and removes the temporary file whether
  or not the write threw. A failure while staging, before that `try`, can leave the file
  behind. Only after a successful write does it record the public address
  `https://<bucket>.s3.<region>.amazonaws.com/<key>` in the video record.
- `handlerUploadThumbnail` (`src/api/thumbnails.ts`). It runs the same first five gates
  (field `thumbnail`) and a 10 MiB ceiling, with no type check. It stores the image inside the
  record as `data:<type>;base64,<bytes>` and answers with the updated record.
- `handlerGetThumbnail` (`src/api/thumbnails.ts`). It checks the ID, then the record, then
  looks the thumbnail up in the in-memory `videoThumbnails` map. It serves the bytes with the
  stored Content-Type and `Cache-Control: no-store`.

Modules:

- `Basics`: bytes, `Option`, and first-match lookup in a list of named entries, which is how
  `FormData.get` behaves.
- `Hex`: lower-case hexadecimal, as `Buffer.toString("hex")` writes it.
- `Base64`: section 4 of RFC 4648, as `Buffer.toString("base64")` writes it.
- `Text`: `split` on one character and decimal rendering of a whole number, as the handlers use
  them, plus `Join`, `LastIndexOf` and `DecimalValue`, which the reference readers use.
- `Api`: what both handler files share:
  - the error kinds and the video record;
  - the form data and the caller's credential;
  - the shared gates and the object URL;
  - the class `Config`. It stands for the handlers' `cfg`, with the video table, the local
    file system and the bucket as fields that the handlers change.
- `Videos`, `Thumbnails`: the handlers themselves.
- `Scenarios`: concrete requests that use only the handlers' contracts.

`Config.Valid()` is the invariant that both upload handlers keep: every video address that a
record holds names an object that is in the bucket. It holds because the record is updated only
after the object store accepted the bytes.

Base64, hex and data URLs are proved against decoders that this model adds. The decoders accept
exactly the canonical encodings, so both round trips are proved. For the hex key, this also
proves that distinct random values give distinct keys, temporary paths and addresses.

## Model

| member | source | states |
|---|---|---|
| Basics.FirstValue | src/api/videos.ts:31 | The lookup finds nothing exactly when no entry has the name. Otherwise it returns the value of the first entry with that name. |
| Api.FormFile | src/api/videos.ts:30-35 | A file comes back exactly when the first value of the field is a file, and it is that file. A missing field or a string value gives nothing. |
| Api.CheckOwnedUpload | src/api/videos.ts:13-35 | The full decision table of the shared gates, each deciding only when all before it passed: an empty or missing ID gives BadRequest "Invalid video ID", then a rejected token gives Unauthenticated, then an absent record gives NotFound "Video not found", then another user's record gives Forbidden "You are not the owner of this Video!", then a missing file field gives BadRequest with the handler's message. It succeeds exactly when all pass, carrying the ID, the record as read and the file. |
| Api.ObjectURL | src/api/videos.ts:52 | The public address is the fixed scheme, host and separator text around bucket and region, with the key as its exact suffix. |
| Api.ObjectURLInjective | src/api/videos.ts:52 | Within one bucket and region, two keys share an address only if they are the same key. |
| Api.PublishKeepsAddressesStored | src/api/videos.ts:59-67 | Storing an object under a key and then pointing one record's video URL at that key's address keeps every recorded address backed by a stored object. |
| Api.OtherFieldsKeepAddressesStored | src/api/thumbnails.ts:69-71 | Replacing a record with one whose video URL is unchanged keeps every recorded address backed by a stored object. |
| Hex.Digit | src/api/videos.ts:49 | Every 4-bit value is written as a lower-case hexadecimal digit. |
| Hex.DigitValue | src/api/videos.ts:49 | Every hexadecimal digit stands for a 4-bit value that is written back as that same digit. |
| Hex.Encode | src/api/videos.ts:49 | The hex text of n bytes has 2n characters, all lower-case hexadecimal digits. |
| Hex.DecodeEncode | src/api/videos.ts:49 | Decoding the hex text of any bytes gives the bytes back. |
| Hex.EncodeDecode | src/api/videos.ts:49 | Any text the decoder accepts is exactly the hex text of what it decodes to. |
| Hex.EncodeInjective | src/api/videos.ts:49 | Distinct byte strings never share a hex text. |
| Base64.Char | src/api/thumbnails.ts:67 | Every 6-bit value is written as a character of the alphabet in Table 1 of RFC 4648. |
| Base64.CharOfValue | src/api/thumbnails.ts:67 | Each alphabet character is the character written for its own value. |
| Base64.ValueOfChar | src/api/thumbnails.ts:67 | Each 6-bit value is the value of the character written for it. |
| Base64.Encode | src/api/thumbnails.ts:67 | The Base64 text of n bytes has 4 * ceil(n / 3) characters. |
| Base64.DecodeEncode | src/api/thumbnails.ts:67 | Decoding the Base64 text of any bytes gives the bytes back. |
| Base64.EncodeDecode | src/api/thumbnails.ts:67 | Any text the canonical decoder accepts is exactly the Base64 text of what it decodes to. |
| Base64.EncodedShape | src/api/thumbnails.ts:67 | The Base64 text of n bytes is alphabet characters followed by exactly 0, 2 or 1 `=` signs, as n mod 3 is 0, 1 or 2. |
| Base64.EncodedHasNoComma | src/api/thumbnails.ts:67-69 | No character of a Base64 text is a comma, so the comma that ends the data URL header is the URL's last comma. |
| Text.Split | src/api/videos.ts:45 | Splitting on a character gives at least one part, no part holds the separator, and joining the parts with the separator gives back the text. |
| Text.SplitAfterRun | src/api/videos.ts:45 | Text that begins with a run free of the separator is split with that run at the head of the first part, and the parts after it unchanged. |
| Text.SplitJoin | src/api/videos.ts:45-46 | Splitting the join of separator-free parts gives exactly those parts back. |
| Text.Decimal | src/api/videos.ts:37 | A whole number is written as at least one character, all decimal digits. |
| Text.DecimalValueOfDecimal | src/api/videos.ts:37 | The digits written for a whole number denote exactly that number, and a positive number is written without a leading zero. |
| Text.DecimalInjective | src/api/videos.ts:37 | Distinct whole numbers are written as distinct digit strings. |
| Videos.TooLargeMessageText | src/api/videos.ts:36-37 | The ceiling is 2^30 bytes, and the message written for an oversized video reads "Video exceeds the Max upload size of 1024 MB.". |
| Videos.CheckUpload | src/api/videos.ts:13-43 | After the shared gates: a file over 2^30 bytes gives BadRequest with the size message, then a declared type other than `video/mp4` gives BadRequest "Invalid video type (must be mp4". It succeeds exactly when the shared gates, the size and the type all pass. |
| Videos.Extension | src/api/videos.ts:45-46 | The second part of the media type split at `/`, or "undefined" when there is none: it never holds `/`, and a type without `/` gives "undefined". `Videos.AcceptedTypeParts` states that `video/mp4` gives "mp4". |
| Videos.AcceptedTypeParts | src/api/videos.ts:41-46 | `video/mp4` splits into exactly "video" and "mp4", so every accepted upload gets the extension "mp4". |
| Videos.ObjectKey | src/api/videos.ts:49 | The key is the hex text of the random bytes (two characters per byte), a dot, then the extension. `Videos.ObjectKeyShape` and `Videos.ObjectKeysDistinct` state its shape and that distinct random values give distinct keys. |
| Videos.TempPath | src/api/videos.ts:51 | The temporary path is `/tmp/` followed by exactly the key. |
| Videos.ObjectKeyShape | src/api/videos.ts:49 | A key made from 32 random bytes is 68 characters: 64 lower-case hexadecimal digits, then ".mp4". |
| Videos.ObjectKeysDistinct | src/api/videos.ts:49-51 | Distinct random values give distinct keys and distinct temporary paths. |
| Videos.StageAndWrite | src/api/videos.ts:53-65 | Never touches the table. A staging failure returns the disk failure with the bucket unchanged, and changes the disk at most at the temporary path. Once staging succeeds, the temporary path is gone from the disk and nothing else on it changes, whether or not the store's write threw. A successful write adds the object under the key with the bytes and content type and returns success; a failed write leaves the bucket unchanged and returns the storage failure. |
| Videos.UploadVideo | src/api/videos.ts:11-70 | Keeps the invariant that recorded addresses are stored. Any gate failure is returned with the table, disk and bucket untouched. A staging failure returns the disk failure with table and bucket unchanged, and changes the disk at most at the temporary path. Once staging succeeds, in both outcomes of the store's write, the temporary path is gone from the disk and nothing else on it changes. A successful write adds the object, with the bytes and type `video/mp4`, under `<hex>.mp4`, and then sets the record's video URL to its public address and returns success. A failed write leaves bucket and table unchanged and returns the storage failure. The call succeeds exactly when the gates pass, staging succeeds and the write succeeds. The disk never gains a path other than the temporary one, and gains none once staging succeeds. |
| Thumbnails.GetThumbnail | src/api/thumbnails.ts:9-31 | An empty or missing ID gives BadRequest "Invalid video ID". Then an absent record gives NotFound "Couldn't find video", then a missing thumbnail gives NotFound "Thumbnail not found". It succeeds exactly when all are present, answering 200 with the stored bytes, the stored Content-Type and Cache-Control "no-store". |
| Thumbnails.TooLargeMessageText | src/api/thumbnails.ts:58-61 | The ceiling is 10 * 2^20 bytes, and the message written for an oversized thumbnail reads "Thumbnail exceeds the Max upload size of 10 MB.". |
| Thumbnails.CheckUpload | src/api/thumbnails.ts:34-62 | After the shared gates, a file over 10 MiB gives BadRequest with the size message. It succeeds exactly when the shared gates and the size pass, whatever the declared type. |
| Thumbnails.DataURL | src/api/thumbnails.ts:69 | The URL starts with `data:`, then the media type verbatim, then `;base64,`, then the Base64 text. `Thumbnails.ParseDataURLOfDataURL` and `Thumbnails.DataURLLength` state that the type and bytes can be read back and the exact length. |
| Thumbnails.ParseDataURLOfDataURL | src/api/thumbnails.ts:64-69 | The data URL stored for an upload gives back exactly the declared media type and the uploaded bytes, even when the type itself holds commas. |
| Thumbnails.DataURLOfParseDataURL | src/api/thumbnails.ts:69 | Every URL the reader accepts is exactly the data URL of the type and bytes it reads, so writer and reader are inverse. |
| Thumbnails.DataURLLength | src/api/thumbnails.ts:67-69 | A stored data URL is 13 characters of header plus the media type plus 4 * ceil(n / 3) Base64 characters. |
| Thumbnails.UploadThumbnail | src/api/thumbnails.ts:33-74 | Keeps the invariant that recorded addresses are stored, and never touches disk or bucket. Any gate failure is returned with the table unchanged. Otherwise the record's thumbnail URL becomes the data URL of the upload's declared type and bytes, that record is saved, and the same record is returned. |

## Left out

- Bearer-token extraction and JWT validation (`getBearerToken`, `validateJWT`) are not part of this model. Their outcome is an input: the caller's user ID, or a rejection that the handler passes on as an error.
- The record store (`getVideo`, `updateVideo`) is a map from video ID to record. Only the fields the handlers read or write are kept.
- Multipart parsing (`req.formData()`) is not modelled. The form is an input list of named fields, each a file or a string.
- `randomBytes(32)` is an input of 32 bytes, because randomness cannot be modelled.
- The object store's write is an input that either returns or throws. A throwing write is taken to leave the bucket unchanged.
- Staging (`Bun.write` at `src/api/videos.ts:53`, then `s3Client.file` and `Bun.file` at lines 54-57) runs before the `try` at lines 59-65. The cleanup guarantee therefore holds only for failures of the store's write. A staging failure is an input, and the model promises only that it touches no path but the temporary one; what a partial write leaves there is not modelled.
- `rm` with `force: true` is taken to succeed. Network and timing failures other than the store's write are not modelled.
- `console.log` calls and the JSON encoding of responses (`respondWithJSON`) are left out. A video upload answers with an empty success value and a thumbnail upload with the updated record.
- The handlers run as a sequence of steps. Their `async` interleaving with other requests is not modelled.
- `src/api/s3.ts` (`generatePresignedURL`) is not part of this model, because none of the three handlers calls it.
- `videoThumbnails` is never declared or filled in `src/api/thumbnails.ts`. The fetch handler takes it as an input map.
- `Base64.Decode`, `Hex.Decode`, `Thumbnails.ParseDataURL`, `Text.Join`, `Text.LastIndexOf` and `Text.DecimalValue` are not in the source. They are reference inverses, and helpers of them, that state what the encodings preserve.
- The handlers do not check the thumbnail's type, do not write thumbnails to disk, do not prefix video keys with an aspect ratio, and do not probe or rewrite the video file, so the model has none of these.
