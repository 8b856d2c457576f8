# ClearView image editor: a Dafny model of its request logic, controller and upload rules

ClearView is a browser tool that uploads a photo, sends it with a generated
prompt to Google's Gemini image model, and shows a before/after comparison of
the result. Most of it is UI. This project models the three parts that hold
logic:

- **The API client** (`GeminiService`, `gemini_service.dfy`). It covers
  `cleanBase64`, which uses JavaScript's `split(',')[1]`. It covers the choice
  between the eraser prompt, the default watermark-removal prompt and the
  custom-instruction prompt, including `String.prototype.trim`. It covers the
  request that is sent and the scan of the reply for the first inline image,
  which is re-wrapped as a PNG data URL. The reply of the remote call is an
  input value.
- **The controller** (`Controller.App`, `app.dfy`). It is a class with the six
  state variables of `App.tsx` and one method per event handler. The async
  `handleProcess` is split into `StartProcess` and `Complete`. Each method
  requires the enabling condition of its control (`disabled`, or a shown
  button). The render condition `originalImage` of the whole editing panel
  (App.tsx:73-75) is deliberately not required of `Reset`, `EditInstruction`
  and `StartProcess`, so that the early return of `handleProcess`
  (App.tsx:35) stays reachable. The ghost field
  `inFlight` counts calls that have started and not yet finished. The object
  invariant `Valid()` ties `status`, `processedImage`, `errorMessage`,
  `originalImage`, `fileData` and `inFlight` together, and every handler
  keeps it.
- **The drop-zone** (`ImageUploader`, `image_uploader.dfy`). It covers the
  `processFile` checks (type first, then the inclusive 10 MiB limit), the
  choice of the first file of a list, and the `dragActive` flag, modelled as a
  class.

`Wrappers` (`wrappers.dfy`) defines `Option` (for `undefined`/`null`) and
`Result` (for thrown errors).

The code differs from its own doc comment in one place. That comment says
`cleanBase64` strips the `data:...,` prefix. The code returns the piece
between the first comma and the *second* comma. The model follows the code:
`CleanBase64OfDataUrl` states exactly this. For data URLs that carry base64
payloads (which never contain a comma), both readings agree.

## Model

| member | source | states |
|---|---|---|
| `GeminiService.Split` | services/geminiService.ts:13 | `split` yields at least one piece, every piece is free of the separator, and there is exactly one piece iff the separator does not occur |
| `GeminiService.SplitJoin` | services/geminiService.ts:13 | splitting the join of separator-free pieces gives back exactly those pieces, so the split is the unique such decomposition |
| `GeminiService.JoinSplit` | services/geminiService.ts:13 | joining the pieces of a split with the separator gives back the split string, so nothing is lost |
| `GeminiService.CleanBase64` | services/geminiService.ts:12-14 | `cleanBase64` yields no value (`undefined`) exactly when the data URL has no comma; any value it yields has no comma in it |
| `GeminiService.CleanBase64OfDataUrl` | services/geminiService.ts:12-14 | for `p + "," + d + tail`, with `p` and `d` comma-free and `tail` empty or starting with a comma, the result is exactly `d`: the payload of `header,payload`, or the text up to the next comma |
| `GeminiService.TrimStart` | services/geminiService.ts:39 | the result is a suffix of the input, everything dropped is JavaScript white space, and the result does not start with white space |
| `GeminiService.TrimEnd` | services/geminiService.ts:39 | the result is a prefix of the input, everything dropped is JavaScript white space, and the result does not end with white space |
| `GeminiService.Trim` | services/geminiService.ts:39 | `trim()` is a contiguous slice of its input, and a non-empty result neither starts nor ends with white space |
| `GeminiService.TrimEmptyIffBlank` | services/geminiService.ts:39 | `trim() === ""` holds exactly when every character is white space or line terminator |
| `GeminiService.SystemPrompt` | services/geminiService.ts:30-46 | eraser mode gives the fixed eraser prompt whatever the instruction; in general mode an absent, empty or blank instruction gives the fixed watermark-removal prompt, and any other instruction gives the fixed head, the instruction, then the fixed tail |
| `GeminiService.DefaultPromptShape` | services/geminiService.ts:41 | the default watermark-removal prompt starts with "You are an expert image editor. " |
| `GeminiService.InstructionPromptShape` | services/geminiService.ts:37-44 | a prompt built from an instruction starts with "You are an expert image editor. " and holds the instruction verbatim, at a fixed position, between the fixed head and tail |
| `GeminiService.GeneralPromptStartsWithBase` | services/geminiService.ts:36-45 | every general-mode prompt, with or without an instruction, starts with "You are an expert image editor. " |
| `GeminiService.PromptIdentifiesRequest` | services/geminiService.ts:30-46 | equal prompts imply equal modes; in general mode they imply the same blank/non-blank choice and, when non-blank, the same instruction. So the three prompt kinds never collide, and distinct instructions give distinct prompts |
| `GeminiService.BuildRequest` | services/geminiService.ts:28-66 | the request names the `gemini-2.5-flash-image` model and carries the given MIME type and the selected prompt; its image data is `cleanBase64` of the data URL: absent exactly when the data URL has no comma, and otherwise comma-free |
| `GeminiService.RequestCarriesPayload` | services/geminiService.ts:28-57 | for a data URL `<header>,<payload>` with no other comma, the request carries exactly the payload, together with the prompt chosen for the mode and instruction |
| `GeminiService.FirstImageIndex` | services/geminiService.ts:70-74 | the index found holds a part with present, non-empty inline data, and no earlier part has any; there is no index exactly when no part carries an image |
| `GeminiService.ImageFromParts` | services/geminiService.ts:70-74 | the scan returns nothing exactly when no part carries an image; any returned image is `data:image/png;base64,` followed by the non-empty data of the first part that carries an image |
| `GeminiService.PartsToScan` | services/geminiService.ts:69-70 | reading the parts throws a TypeError exactly when the candidate list is present but empty, or its first candidate has no content; otherwise the parts scanned are those of the first candidate, none when the candidates or the parts are absent |
| `GeminiService.EditOutcome` | services/geminiService.ts:69-77 | `editImage` succeeds exactly when the first candidate's parts include a part with non-empty inline data, and then returns the scan's image: the PNG prefix, whatever MIME type the part declared, followed by the first image part's data; it fails with a TypeError exactly when the candidate list is empty or the first candidate has no content; it fails with "no image data" exactly when the parts are readable and none carries an image; a reply never yields a transport failure |
| `GeminiService.ScanParts` | services/geminiService.ts:70-74 | the loop with its early return computes the scan's result: the first image part in order, re-wrapped, or nothing |
| `GeminiService.ExtractImage` | services/geminiService.ts:68-77 | the guard on candidates and parts, the loop and the trailing throw together give `EditOutcome` of the reply |
| `GeminiService.EditImage` | services/geminiService.ts:21-83 | `editImage` sends the request built from its arguments; a rejected remote call propagates as a failure; otherwise the outcome is `EditOutcome` of the reply |
| `GeminiService.ScanIgnoresLaterParts` | services/geminiService.ts:70-74 | once a part with an image has been found, appending further parts does not change the result |
| `GeminiService.ScanSkipsLeadingParts` | services/geminiService.ts:70-74 | parts without inline image data in front of the list are skipped: the result is that of the remaining parts |
| `GeminiService.OnlyFirstCandidateCounts` | services/geminiService.ts:69-70 | candidates after the first never affect the outcome |
| `GeminiService.ExtractedImageRoundTrip` | services/geminiService.ts:72 | applying `cleanBase64` to a returned image gives back the comma-free payload the model sent |
| `ImageUploader.Check` | components/ImageUploader.tsx:38-49 | a file is accepted iff its type starts with `image/` and its size is at most 10485760 bytes; a non-image is rejected for its type whatever its size; an oversize image is rejected for its size |
| `ImageUploader.ProcessFile` | components/ImageUploader.tsx:38-57 | `onImageSelected` is called, with this file and the data URL read, exactly when both checks pass and the read yields a non-empty result; an alert is shown exactly when a check fails, with the type message for a non-image and the size message otherwise |
| `ImageUploader.FirstFile` | components/ImageUploader.tsx:26-35 | a file is taken only from a present, non-empty list, and it is the first one |
| `ImageUploader.HandleChange` | components/ImageUploader.tsx:31-36 | with no file nothing happens; otherwise the first file goes through `processFile` |
| `ImageUploader.SelectedFilesAreAcceptable` | components/ImageUploader.tsx:38-57 | every file handed to the controller is an image type of at most 10 MiB and comes with a non-empty data URL |
| `ImageUploader.SizeBoundary` | components/ImageUploader.tsx:45-48 | an image of exactly 10485760 bytes passes and one of 10485761 bytes is rejected for its size; a non-image of that size gets the type message |
| `ImageUploader.DropZone.constructor` | components/ImageUploader.tsx:9 | the highlight starts off |
| `ImageUploader.DropZone.HandleDrag` | components/ImageUploader.tsx:12-20 | `dragenter` and `dragover` set the highlight, `dragleave` clears it, and any other event type leaves it unchanged |
| `ImageUploader.DropZone.HandleDrop` | components/ImageUploader.tsx:22-29 | a drop clears the highlight and then handles the first dropped file exactly as a file-input change does |
| `Controller.App.constructor` | App.tsx:10-15 | no image, result, file or error; status IDLE; empty instruction; nothing in flight; the invariant holds |
| `Controller.App.SelectImage` | App.tsx:17-23 | selecting an image (offered only while no image is loaded) stores the image and file, clears result and error, sets IDLE, keeps the instruction and keeps the invariant |
| `Controller.App.Reset` | App.tsx:25-32 | reset (disabled while PROCESSING) clears image, result, file, error and instruction, sets IDLE and keeps the invariant |
| `Controller.App.EditInstruction` | App.tsx:98-104 | the instruction box (disabled in PROCESSING and SUCCESS) changes only the instruction |
| `Controller.App.StartProcess` | App.tsx:34-38 | with the process button enabled: without an image or file nothing changes and no call starts; otherwise exactly one call starts with the image, the file's MIME type and the instruction, status becomes PROCESSING and the error is cleared, and nothing else changes |
| `Controller.App.Complete` | App.tsx:40-48 | on success the result is stored and status is SUCCESS; on failure status is ERROR with the fixed message and the result is untouched; the image, file and instruction are kept and nothing is left in flight |
| `Controller.App.ReEdit` | App.tsx:144-153 | re-edit (shown only in SUCCESS) returns to IDLE and drops the result, keeping the image, file and instruction |
| `Controller.App.ReachableStateFacts` | App.tsx:17-49 | in every state the handlers can reach: at most one call in flight; a result is held only in SUCCESS; an error message is held exactly in ERROR; the comparison view is shown only in SUCCESS with a result; and while PROCESSING neither process nor reset is enabled |

## Left out

- The `GoogleGenAI` client and the `generateContent` call (services/geminiService.ts:7, 51-66) belong to a foreign SDK and to network I/O. The reply is an input of `EditImage`. A rejected call is the input `None`.
- The `console.error` logging and the rethrow in `editImage` (services/geminiService.ts:79-82) and in `handleProcess` (App.tsx:45) have no behaviour to state. The text of the "No image data" error is not modelled: the failure is the `NoImageData` case.
- Reading the file with `FileReader` is browser I/O. Its result is an input of `ProcessFile` (`None` when no load event arrives). The alerts are modelled as the `Alerted` outcome with their message, not as popups.
- The input's `accept` list of image types is only a hint to the browser's file picker, and `onButtonClick` only opens the picker. Neither constrains which files reach `processFile`.
- `App.tsx` imports `removeWatermark` (App.tsx:6, 41), which services/geminiService.ts does not export (it exports `editImage`). The controller therefore does not call `EditImage`. The outcome of the call is an arbitrary input of `Complete`, and the arguments the controller passes are returned by `StartProcess`.
- Strings are sequences of Unicode code points, while JavaScript strings are UTF-16 code units. White space is matched by code point, and all the characters `trim` removes lie in the Basic Multilingual Plane, so the two readings agree for `trim`.
- The freehand mask canvas (components/ImageCanvas.tsx) is not part of this model: it works on canvas pixels and float coordinates. The comparison slider (components/ComparisonSlider.tsx) is not part of this model either: it is float DOM geometry plus a download. components/Header.tsx and the JSX of App.tsx are presentation only. Only the guards of App.tsx are modelled.
- Controller.App.SelectImage: it requires the drop-zone to be shown, which treats each file read as finishing at its drop or selection. In the source `processFile` starts a `FileReader` and returns at once (components/ImageUploader.tsx:50-56). A read still pending when a first image loads can call `handleImageSelected` later (App.tsx:17-23), even in PROCESSING. That call sets IDLE while a call is in flight, so the process button is enabled again and a second call can start. The model does not cover this interleaving.
- Controller.App.Complete: it requires status PROCESSING. After such a late selection, a stale completion can arrive in IDLE and show the old call's result (App.tsx:42-43) next to the newer image. The model does not cover this. Without late reads, the other guards keep a reply from arriving after a reset. While PROCESSING, the reset button, the process button and the instruction box are disabled (App.tsx:83, 103, 119), and the drop-zone is not rendered (App.tsx:73).
- Controller.App.ReachableStateFacts: "at most one call in flight" and "no stale reply" hold only under the abstraction above, in which every file read completes at its drop or selection.
- The status `UPLOADING` is declared in types.ts:6-12 but never set. `Valid()` states that it never occurs.
