# Local-Inference request path, modelled in Dafny

The repository wraps a pretrained vision-language model (`HuggingFaceTB/SmolVLM-256M-Instruct`)
behind a `Model` class with `load` and `predict`. This project models the glue code the
wrapper itself contains, and proves properties of it:

- **Load configuration.** `load` chooses between two keyword-argument sets. On a GPU host it
  passes a 4-bit NF4, bfloat16-compute, double-quantisation bitsandbytes config with
  `device_map="auto"`. On a CPU host it passes `device_map="cpu"`, `low_cpu_mem_usage=True`
  and a float32 dtype. `trust_remote_code=True` is always added.
- **Request normalisation in `_predict_sync`.** The `image_b64` field defaults to `""`. If it
  holds the data-URL preamble `data:image/png;base64,`, every occurrence is removed with
  `str.replace`. The `prompt` field defaults to `"Describe this image."` only when the key is
  missing.
- **The conversation.** The chat template receives one user turn whose content is an image
  item followed by the prompt text.
- **Output clean-up.** If the decoded text contains `[/INST]`, the answer is the last piece
  of `split("[/INST]")`, stripped of whitespace. Otherwise the text is returned as it is.
- **One synchronous prediction**, `PredictSync`. Image decoding and the model run are
  parameters that stand for the foreign calls and may raise.

Files:

- `wrappers.dfy` (module `Wrappers`): `Option` and `Result`.
- `pystr.dfy` (module `PyStr`): Python `str` operations over `seq<char>`.
  - The wrapper itself uses `in` (model/model.py:74, 105), `replace` (75), `split`, indexing
    with `[-1]` and `strip()` (106).
  - `find`, `rfind`, `count` and `join` are reference definitions. They are used only to
    specify the operations above: `find` for `in` and `replace`, `rfind` for
    `split(...)[-1]`, `count` for the length after `replace`, and `join` for `replace` as
    split-then-join.
  - `find` and `rfind` are index scans. `count`, `split` and `replace` repeat `find` from an
    index and resume after each match. This is CPython's non-overlapping, left-to-right rule.
  - `strip()` skips whitespace from both ends, where whitespace means `str.isspace`'s code
    points.
- `inference.dfy` (module `Inference`): the wrapper's constants, request fields,
  conversation, output clean-up, load calls and their keyword arguments, and `PredictSync`.

Everything in the core is pure logic on values. The model therefore consists of datatypes,
functions and lemmas, with no classes or loops.

## Model

| member | source | states |
|---|---|---|
| Inference.Get | model/model.py:73-78 | `dict.get`: the stored value when the key is present, the default when it is absent |
| Inference.RawImage | model/model.py:73 | `model_input.get("image_b64", "")`: the request's `image_b64` field when it has one, `""` otherwise |
| Inference.ImageB64 | model/model.py:73-75 | The `in` guard changes nothing: the text handed to the decoder always equals the field (default `""`) with every preamble occurrence replaced by `""` |
| Inference.ImageB64Length | model/model.py:73-75 | The decoder's text is the field's length minus 22 for each non-overlapping preamble occurrence `count` finds |
| Inference.ImageB64UnchangedIff | model/model.py:74-75 | The field reaches the decoder unchanged if and only if it holds no preamble |
| Inference.ImageB64Missing | model/model.py:73 | A request without `image_b64` decodes the empty text |
| Inference.PrefixedSameAsBare | model/model.py:73-75 | A data URL and its bare base64 payload give the decoder the same text |
| Inference.ReplaceMaySpliceNewPreamble | model/model.py:74-75 | After removal the text can still hold a preamble: for `"d" + preamble + "ata:image/png;base64,"` the decoder receives the preamble itself |
| Inference.PromptText | model/model.py:78 | A missing `prompt` gives `"Describe this image."`; a present one, including `""`, is used as given |
| Inference.BuildConversation | model/model.py:82-90 | The prompt can be read back from the built conversation |
| Inference.BuildConversationInverse | model/model.py:82-90 | The conversation's prompt can be read back, and a conversation has that shape (one user turn, image item then text item) if and only if it is the one built from its prompt |
| Inference.ConversationImageFirst | model/model.py:85-88 | The turn's content holds exactly one image item, and it comes first |
| Inference.CleanOutput | model/model.py:105-108 | The clean-up never makes the decoded text longer |
| Inference.InstEndNoSelfOverlap | model/model.py:105-106 | Two occurrences of `[/INST]` can never overlap |
| Inference.CleanOutputWithMarker | model/model.py:105-106 | With `[/INST]` present, the answer is the stripped text after its last occurrence (at `rfind`). It holds no `[/INST]` and has no leading or trailing whitespace |
| Inference.CleanOutputUnchangedIff | model/model.py:105-108 | The decoded text is returned unchanged if and only if it holds no `[/INST]` |
| Inference.CleanOutputIdempotent | model/model.py:105-108 | Cleaning an already cleaned answer changes nothing |
| Inference.ModelKwargs | model/model.py:31-47 | Both hosts pass `device_map`, and neither selection holds `trust_remote_code` |
| Inference.ModelKwargsKeys | model/model.py:31-47 | A GPU host gets exactly `quantization_config` and `device_map`; a CPU host gets exactly `device_map`, `low_cpu_mem_usage` and `torch_dtype`. Only `device_map` is shared |
| Inference.ModelKwargsGpuIff | model/model.py:31-47 | Quantisation is passed if and only if there is a GPU, and then it is exactly `load_in_4bit=True`, `nf4`, bfloat16 compute and double quantisation. `device_map` is `"auto"` or `"cpu"` accordingly. On a CPU host `low_cpu_mem_usage` is `True` and the dtype is float32; neither is passed with a GPU |
| Inference.LoadKwargs | model/model.py:54-58 | The model's `from_pretrained` receives `trust_remote_code=True` and exactly one argument more than the selected ones |
| Inference.LoadKwargsExtends | model/model.py:54-58 | `from_pretrained` receives every selected argument unchanged, plus `trust_remote_code=True`, which never overrides one of them |
| Inference.LoadCalls | model/model.py:51-58 | `load` makes exactly two `from_pretrained` calls, both for `HuggingFaceTB/SmolVLM-256M-Instruct`: the processor's without keyword arguments, the model's with `trust_remote_code=True` |
| Inference.LoadCallsSameCheckpoint | model/model.py:51-58 | `load` makes two `from_pretrained` calls, both for `HuggingFaceTB/SmolVLM-256M-Instruct`: the processor's without keyword arguments, the model's with the load arguments |
| Inference.PredictSync | model/model.py:71-108 | A prediction fails only when image decoding or the model run fails |
| Inference.PredictSyncDecodeFailure | model/model.py:71-77 | An image that fails to decode ends the prediction with that error, whatever the model would do |
| Inference.PredictSyncModelFailure | model/model.py:91-101 | Once the image decodes, an error from the model run (chat template, processor, generation or decoding, given the built conversation, 200 new tokens and no sampling) ends the prediction with that error |
| Inference.PredictSyncAnswer | model/model.py:98-108 | Once the image decodes and the model run returns a text, the prediction answers that text cleaned up |
| Inference.PredictSyncAnswerClean | model/model.py:71-108 | A successful prediction had a decoded image and a successful model run, its answer is that run's text cleaned up, and the answer is a fixed point of the clean-up |
| Inference.PredictSyncPrefixInvariant | model/model.py:71-108 | For any decoder and model, a data URL and its bare payload give the same prediction |
| PyStr.Contains | model/model.py:74 | `pat in s` (also at line 105): the empty pattern is in every string, a pattern is in any string it starts, and a string holds no pattern longer than itself. `FindIffContains` and `RFindIffContains` show it holds exactly when `find` (or `rfind`) succeeds |
| PyStr.Find | model/model.py:74-75 | Reference for `in` and `replace`: a match `find` returns lies wholly inside the string |
| PyStr.FindFound | model/model.py:74-75 | The index `find` returns is an occurrence |
| PyStr.FindFirst | model/model.py:74-75 | No occurrence starts before the index `find` returns |
| PyStr.FindNone | model/model.py:74-75 | When `find` fails, there is no occurrence anywhere |
| PyStr.FindIffContains | model/model.py:74 | `pat in s` holds exactly when `find` succeeds |
| PyStr.RFind | model/model.py:106 | Reference used to specify `split(sep)[-1]`: a match `rfind` returns lies wholly inside the string |
| PyStr.RFindFound | model/model.py:106 | Specifying `split(sep)[-1]`: the index `rfind` returns is an occurrence |
| PyStr.RFindLast | model/model.py:106 | Specifying `split(sep)[-1]`: no occurrence starts after the index `rfind` returns |
| PyStr.RFindNone | model/model.py:106 | Specifying `split(sep)[-1]`: when `rfind` fails, there is no occurrence anywhere |
| PyStr.RFindIffContains | model/model.py:105 | `pat in s` holds exactly when `rfind` succeeds |
| PyStr.Count | model/model.py:75 | Reference for the length after `replace`: the occurrences `count` counts are disjoint, so they fit in the string (`count * len(pat) <= len(s)`) |
| PyStr.CountZeroIffAbsent | model/model.py:74-75 | `count` is zero exactly when the pattern does not occur |
| PyStr.Replace | model/model.py:75 | CPython's left-to-right scan that resumes after each match, specified by `ReplaceIsJoinOfSplit`, `ReplaceLength` and `ReplaceWithoutOccurrence`. Its own contract adds only that replacing a pattern by itself leaves the string unchanged |
| PyStr.ReplaceWithoutOccurrence | model/model.py:74-75 | `replace` leaves a string without the pattern unchanged |
| PyStr.ReplaceAtFront | model/model.py:75 | A leading occurrence is replaced and the scan resumes right after it |
| PyStr.ReplaceLength | model/model.py:75 | `replace` changes the length by `count` times the length difference of replacement and pattern |
| PyStr.ReplaceIsJoinOfSplit | model/model.py:75 | `s.replace(p, r)` equals `r.join(s.split(p))` |
| PyStr.DeletionCanCreateOccurrence | model/model.py:75 | Deleting every occurrence can create a new one: `p[0] + p + p[1:]` becomes `p` |
| PyStr.Split | model/model.py:106 | `split` always returns at least one piece, so `[-1]` is defined |
| PyStr.SplitCount | model/model.py:106 | `split` has one piece more than `count` counts |
| PyStr.SplitPiecesFree | model/model.py:106 | No piece of `split` contains the separator |
| PyStr.Join | model/model.py:75 | Reference used to specify `replace` as split-then-join; the wrapper never calls `join`. Its meaning comes from `SplitJoin` and `ReplaceIsJoinOfSplit`, and its own contract adds only that a join starts with its first part |
| PyStr.SplitJoin | model/model.py:106 | Joining the pieces with the separator rebuilds the string |
| PyStr.Last | model/model.py:106 | `xs[-1]` of a non-empty list: an element of the list, and the one-element slice at its end |
| PyStr.SplitLastIsSuffix | model/model.py:106 | `split(sep)[-1]` is a suffix of the string and holds no separator |
| PyStr.SplitLastAfterLastOccurrence | model/model.py:105-106 | For a separator that cannot overlap itself and does occur, `split(sep)[-1]` is exactly the text after `rfind(sep)` |
| PyStr.Strip | model/model.py:106 | `strip()` keeps a contiguous slice and drops only whitespace on either side. The slice has no whitespace at either end, and it is empty exactly when the string is all whitespace |
| PyStr.IsSpace | model/model.py:106 | The whitespace `strip()` removes, as `str.isspace` defines it: among ASCII characters exactly tab, line feed, vertical tab, form feed, carriage return, the four separators 0x1C-0x1F and space, and nothing above U+3000 |
| PyStr.StripKeepsAbsence | model/model.py:106 | `strip()` cannot bring in a pattern the string lacks |
| PyStr.StripTrimmed | model/model.py:106 | A string with no whitespace at either end is left as it is |
| PyStr.StripIdempotent | model/model.py:106 | Stripping twice is the same as stripping once |
| PyStr.StripCharacterised | model/model.py:106 | Surrounding whitespace around a trimmed core is stripped back to exactly that core |

## Left out

- Loading the processor and the model (`from_pretrained`, model/model.py:51-58) is a call into
  the transformers library. Only the checkpoint name and the keyword arguments of the two
  calls are modelled (`LoadCalls`, `LoadKwargs`). GPU detection (`torch.cuda.is_available`) is the `hasGpu` parameter.
- The timing and the `print` messages in `load` are I/O.
- The async `predict` and its single-worker `ThreadPoolExecutor` (model/model.py:14, 21,
  61-69) are concurrency, so `DEFAULT_MAX_WORKERS` is not modelled.
- The constructor's field set-up and the `None` fields before `load` (model/model.py:18-22)
  are object lifecycle, not request logic.
- `base64.b64decode` and opening the image with PIL are the `decodeImage` parameter of
  `PredictSync`.
- `apply_chat_template`, the processor call, `generate` and `decode` (model/model.py:91-101)
  are the `runModel` parameter. `runModel` receives the conversation, plus the fixed
  generation settings (200 new tokens, no sampling).
- The device move `.to("cuda")` and `torch.inference_mode` (model/model.py:94, 97) are torch
  runtime concerns hidden inside `runModel`. The move is unconditional, so it does not follow
  the CPU branch of the load configuration (model/model.py:42-47). The model does not
  capture this.
- Request values other than strings: `ModelInput` maps field names to strings.
- `replace`, `split` and `count` with an empty pattern: all patterns the wrapper uses are
  non-empty constants, so the model requires a non-empty pattern.
