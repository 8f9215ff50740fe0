/**
  The request path of the local vision-language inference wrapper (`Model` in
  `model/model.py`): how a request's fields are read and normalised, the chat
  conversation handed to the processor, how the generated text is cleaned up, and
  which keyword arguments load the model on a GPU or a CPU host. The model, the
  processor, image decoding and the executor thread are parameters or left out.
 */
module Inference {
  import opened Wrappers
  import opened PyStr

  const MODEL_ID: string := "HuggingFaceTB/SmolVLM-256M-Instruct"
  const BASE64_PREAMBLE: string := "data:image/png;base64,"
  const DEFAULT_PROMPT: string := "Describe this image."
  /** The end-of-instruction marker after which the answer follows. */
  const INST_END: string := "[/INST]"

  // ---------------------------------------------------------------------------
  // request fields

  /** A request: a dictionary from field names to string values. */
  type ModelInput = map<string, string>

  /** Python's `d.get(key, default)`: the stored value when the key is present, the default when it is absent. */
  function Get(m: map<string, string>, key: string, default: string): (r: string)
    ensures r in m.Values || r == default
    ensures key in m ==> r == m[key]
    ensures key !in m ==> r == default
  {
    if key in m then m[key] else default
  }

  /** The raw `image_b64` field, `""` when the request has none. */
  function RawImage(input: ModelInput): (r: string)
    ensures "image_b64" in input ==> r == input["image_b64"]
    ensures "image_b64" !in input ==> r == ""
  {
    Get(input, "image_b64", "")
  }

  /**
    The base64 text handed to the decoder: the raw field with every data-URL preamble removed.
    The membership guard changes nothing: the result is always the raw field with the
    preamble replaced by `""`.
   */
  function ImageB64(input: ModelInput): (r: string)
    ensures r == Replace(RawImage(input), BASE64_PREAMBLE, "")
  {
    var raw := RawImage(input);
    if Contains(raw, BASE64_PREAMBLE) then Replace(raw, BASE64_PREAMBLE, "")
    else ReplaceWithoutOccurrence(raw, BASE64_PREAMBLE, ""); raw
  }

  /** The prompt: the `prompt` field when present (even if empty), the default otherwise. */
  function PromptText(input: ModelInput): (r: string)
    ensures "prompt" !in input ==> r == DEFAULT_PROMPT
    ensures "prompt" in input ==> r == input["prompt"]
  {
    Get(input, "prompt", DEFAULT_PROMPT)
  }

  /** Removing the preamble shortens the field by its length once per non-overlapping occurrence. */
  lemma ImageB64Length(input: ModelInput)
    ensures |ImageB64(input)| == |RawImage(input)| - Count(RawImage(input), BASE64_PREAMBLE) * |BASE64_PREAMBLE|
  {
    ReplaceLength(RawImage(input), BASE64_PREAMBLE, "");
  }

  /** The field reaches the decoder unchanged exactly when it holds no preamble. */
  lemma ImageB64UnchangedIff(input: ModelInput)
    ensures ImageB64(input) == RawImage(input) <==> !Contains(RawImage(input), BASE64_PREAMBLE)
  {
    ImageB64Length(input);
    CountZeroIffAbsent(RawImage(input), BASE64_PREAMBLE);
  }

  /** A request without an `image_b64` field decodes the empty text. */
  lemma ImageB64Missing(input: ModelInput)
    requires "image_b64" !in input
    ensures ImageB64(input) == ""
  {
    assert !OccursAt("", BASE64_PREAMBLE, 0);
  }

  /** A data URL and its bare base64 payload reach the decoder as the same text. */
  lemma PrefixedSameAsBare(input: ModelInput, payload: string)
    ensures ImageB64(input["image_b64" := BASE64_PREAMBLE + payload])
         == ImageB64(input["image_b64" := payload])
  {
    ReplaceAtFront(BASE64_PREAMBLE, "", payload);
  }

  /**
    Removing every preamble can splice a new one together: for the field
    `"d" + BASE64_PREAMBLE + "ata:image/png;base64,"` the decoder receives the
    preamble itself, so the text after removal need not be preamble-free.
   */
  lemma ReplaceMaySpliceNewPreamble()
    ensures var p := BASE64_PREAMBLE;
      var input := map["image_b64" := [p[0]] + p + p[1..]];
      ImageB64(input) == p && Contains(ImageB64(input), p)
  {
    var p := BASE64_PREAMBLE;
    var input := map["image_b64" := [p[0]] + p + p[1..]];
    assert p[0] == 'd' && p[1] == 'a';
    DeletionCanCreateOccurrence(p);
    assert OccursAt(p, p, 0);
  }

  // ---------------------------------------------------------------------------
  // conversation

  /** One entry of a chat turn's content list. */
  datatype ContentItem = ImageItem | TextItem(text: string)

  /** One chat turn: a role and its content items. */
  datatype Message = Message(role: string, content: seq<ContentItem>)

  type Conversation = seq<Message>

  /** The conversation sent to the chat template: one user turn holding the image, then the prompt. */
  function BuildConversation(prompt: string): (r: Conversation)
    ensures PromptOf(r) == Some(prompt)
  {
    [Message("user", [ImageItem, TextItem(prompt)])]
  }

  /** The prompt of a conversation of that shape, and `None` for any other conversation. */
  function PromptOf(c: Conversation): Option<string> {
    if |c| == 1 && c[0].role == "user" && |c[0].content| == 2
       && c[0].content[0] == ImageItem && c[0].content[1].TextItem?
    then Some(c[0].content[1].text)
    else None
  }

  /** `PromptOf` recovers the prompt, and only the built conversations have one. */
  lemma BuildConversationInverse(prompt: string, c: Conversation)
    ensures PromptOf(BuildConversation(prompt)) == Some(prompt)
    ensures PromptOf(c) == Some(prompt) <==> c == BuildConversation(prompt)
  {
    if PromptOf(c) == Some(prompt) {
      assert c[0].content == [ImageItem, TextItem(prompt)];
      assert c == [c[0]];
    }
  }

  /** Every built conversation holds exactly one image, and it comes before the text. */
  lemma ConversationImageFirst(prompt: string)
    ensures var items := BuildConversation(prompt)[0].content;
      items[0] == ImageItem && forall k :: 0 < k < |items| ==> items[k] != ImageItem
  {
  }

  // ---------------------------------------------------------------------------
  // output cleanup

  /** The decoded text with everything up to the last end-of-instruction marker cut away and stripped; never longer. */
  function CleanOutput(decoded: string): (r: string)
    ensures |r| <= |decoded|
  {
    if Contains(decoded, INST_END) then
      SplitLastIsSuffix(decoded, INST_END);
      Strip(Last(Split(decoded, INST_END)), IsSpace)
    else decoded
  }

  /** The marker cannot overlap itself: `[` occurs in it only at the front. */
  lemma InstEndNoSelfOverlap()
    ensures NoSelfOverlap(INST_END)
  {
    forall d | 0 < d < |INST_END|
      ensures INST_END[d..] != INST_END[..|INST_END| - d]
    {
      assert INST_END[d..][0] == INST_END[d] != '[';
    }
  }

  /** With a marker present, the answer is the stripped text after its last occurrence, marker-free and trimmed. */
  lemma CleanOutputWithMarker(decoded: string)
    requires Contains(decoded, INST_END)
    ensures RFind(decoded, INST_END).Some?
    ensures CleanOutput(decoded) == Strip(decoded[RFind(decoded, INST_END).value + |INST_END|..], IsSpace)
    ensures !Contains(CleanOutput(decoded), INST_END)
    ensures Trimmed(CleanOutput(decoded), IsSpace)
  {
    var x := Last(Split(decoded, INST_END));
    assert x == decoded[RFind(decoded, INST_END).value + |INST_END|..] by {
      InstEndNoSelfOverlap();
      SplitLastAfterLastOccurrence(decoded, INST_END);
    }
    assert !Contains(Strip(x, IsSpace), INST_END) by {
      SplitLastIsSuffix(decoded, INST_END);
      StripKeepsAbsence(x, INST_END, IsSpace);
    }
  }

  /** The text comes back untouched exactly when it holds no marker. */
  lemma CleanOutputUnchangedIff(decoded: string)
    ensures CleanOutput(decoded) == decoded <==> !Contains(decoded, INST_END)
  {
    if Contains(decoded, INST_END) {
      CleanOutputWithMarker(decoded);
    }
  }

  /** Cleaning a cleaned answer changes nothing. */
  lemma CleanOutputIdempotent(decoded: string)
    ensures CleanOutput(CleanOutput(decoded)) == CleanOutput(decoded)
  {
    if Contains(decoded, INST_END) {
      CleanOutputWithMarker(decoded);
    }
  }

  // ---------------------------------------------------------------------------
  // loading configuration

  datatype DType = BFloat16 | Float32

  /** The 4-bit weight formats bitsandbytes offers. */
  datatype QuantType = NF4 | FP4

  /** The fields of the bitsandbytes quantisation settings the loader sets. */
  datatype BitsAndBytesConfig = BitsAndBytesConfig(
    loadIn4bit: bool, quantType: QuantType, computeDType: DType, useDoubleQuant: bool)

  /** A keyword-argument value passed to the model loader. */
  datatype KwArg = Quantization(config: BitsAndBytesConfig) | Text(s: string) | Flag(b: bool) | TorchDType(dtype: DType)

  /** 4-bit NF4 weights, bfloat16 compute, double quantisation. */
  const QUANTIZATION: BitsAndBytesConfig := BitsAndBytesConfig(true, NF4, BFloat16, true)

  const GPU_KEYS: set<string> := {"quantization_config", "device_map"}
  const CPU_KEYS: set<string> := {"device_map", "low_cpu_mem_usage", "torch_dtype"}

  /** The loader's keyword arguments: quantised and auto-placed with a GPU, full precision on the CPU otherwise. */
  function ModelKwargs(hasGpu: bool): (r: map<string, KwArg>)
    ensures "device_map" in r && "trust_remote_code" !in r
  {
    if hasGpu then
      map["quantization_config" := Quantization(QUANTIZATION), "device_map" := Text("auto")]
    else
      map["device_map" := Text("cpu"), "low_cpu_mem_usage" := Flag(true), "torch_dtype" := TorchDType(Float32)]
  }

  /** All keyword arguments of the model's `from_pretrained` call: the selected ones plus remote code trust. */
  function LoadKwargs(hasGpu: bool): (r: map<string, KwArg>)
    ensures "trust_remote_code" in r && r["trust_remote_code"] == Flag(true)
    ensures |r| == |ModelKwargs(hasGpu)| + 1
  {
    ModelKwargs(hasGpu)["trust_remote_code" := Flag(true)]
  }

  /** Each host gets exactly its own keys, and only the shared `device_map` appears in both. */
  lemma ModelKwargsKeys(hasGpu: bool)
    ensures ModelKwargs(hasGpu).Keys == if hasGpu then GPU_KEYS else CPU_KEYS
    ensures GPU_KEYS * CPU_KEYS == {"device_map"}
  {
    assert "quantization_config" !in CPU_KEYS;
  }

  /** Quantisation is requested exactly on a GPU host, a float32 dtype exactly on a CPU host. */
  lemma ModelKwargsGpuIff(hasGpu: bool)
    ensures "quantization_config" in ModelKwargs(hasGpu) <==> hasGpu
    ensures "quantization_config" in ModelKwargs(hasGpu) ==>
      ModelKwargs(hasGpu)["quantization_config"] == Quantization(QUANTIZATION)
    ensures ModelKwargs(hasGpu)["device_map"] == Text(if hasGpu then "auto" else "cpu")
    ensures "torch_dtype" in ModelKwargs(hasGpu) <==> !hasGpu
    ensures "low_cpu_mem_usage" in ModelKwargs(hasGpu) <==> !hasGpu
    ensures !hasGpu ==> ModelKwargs(hasGpu)["torch_dtype"] == TorchDType(Float32)
    ensures !hasGpu ==> ModelKwargs(hasGpu)["low_cpu_mem_usage"] == Flag(true)
    ensures hasGpu ==> (ModelKwargs(hasGpu)["quantization_config"].Quantization? &&
      var q := ModelKwargs(hasGpu)["quantization_config"].config;
      q.loadIn4bit && q.quantType == NF4 && q.computeDType == BFloat16 && q.useDoubleQuant)
  {
  }

  /** Trusting remote code never overrides a selected argument, and every selected argument is passed. */
  lemma LoadKwargsExtends(hasGpu: bool)
    ensures "trust_remote_code" !in ModelKwargs(hasGpu)
    ensures LoadKwargs(hasGpu).Keys == ModelKwargs(hasGpu).Keys + {"trust_remote_code"}
    ensures forall k :: k in ModelKwargs(hasGpu) ==> LoadKwargs(hasGpu)[k] == ModelKwargs(hasGpu)[k]
    ensures LoadKwargs(hasGpu)["trust_remote_code"] == Flag(true)
  {
  }

  /** A `from_pretrained` call: the model id and its keyword arguments. */
  datatype PretrainedCall = PretrainedCall(modelId: string, kwargs: map<string, KwArg>)

  /** The two loads `load` performs, processor first, then the model with the selected arguments. */
  function LoadCalls(hasGpu: bool): (r: seq<PretrainedCall>)
    ensures |r| == 2 && forall c :: c in r ==> c.modelId == MODEL_ID
    ensures r[0].kwargs == map[]
    ensures "trust_remote_code" in r[1].kwargs && r[1].kwargs["trust_remote_code"] == Flag(true)
  {
    [PretrainedCall(MODEL_ID, map[]), PretrainedCall(MODEL_ID, LoadKwargs(hasGpu))]
  }

  /** Processor and model come from the same checkpoint; only the model load carries arguments. */
  lemma LoadCallsSameCheckpoint(hasGpu: bool)
    ensures |LoadCalls(hasGpu)| == 2
    ensures LoadCalls(hasGpu)[0].modelId == LoadCalls(hasGpu)[1].modelId == "HuggingFaceTB/SmolVLM-256M-Instruct"
    ensures LoadCalls(hasGpu)[0].kwargs == map[] && LoadCalls(hasGpu)[1].kwargs == LoadKwargs(hasGpu)
  {
  }

  // ---------------------------------------------------------------------------
  // one prediction

  /** The fixed generation settings: at most 200 new tokens, greedy decoding. */
  datatype GenerationParams = GenerationParams(maxNewTokens: nat, doSample: bool)

  const GENERATION: GenerationParams := GenerationParams(200, false)

  /**
    One synchronous prediction. `decodeImage` stands for base64 decoding plus opening
    the image; `runModel` for the chat template, the processor, generation and token
    decoding. Either may raise, which ends the prediction with that error; nothing
    else makes it fail.
   */
  function PredictSync<Image, E>(
    input: ModelInput,
    decodeImage: string -> Result<Image, E>,
    runModel: (Image, Conversation, GenerationParams) -> Result<string, E>): (r: Result<string, E>)
    ensures r.Failure? ==>
      (decodeImage(ImageB64(input)).Failure? ||
       runModel(decodeImage(ImageB64(input)).value, BuildConversation(PromptText(input)), GENERATION).Failure?)
  {
    match decodeImage(ImageB64(input))
    case Failure(e) => Failure(e)
    case Success(image) =>
      match runModel(image, BuildConversation(PromptText(input)), GENERATION)
      case Failure(e) => Failure(e)
      case Success(decoded) => Success(CleanOutput(decoded))
  }

  /** Once the image decodes, an error raised by the model run ends the prediction with that error. */
  lemma PredictSyncModelFailure<Image, E>(
    input: ModelInput,
    decodeImage: string -> Result<Image, E>,
    runModel: (Image, Conversation, GenerationParams) -> Result<string, E>,
    image: Image, e: E)
    requires decodeImage(ImageB64(input)) == Success(image)
    requires runModel(image, BuildConversation(PromptText(input)), GenerationParams(200, false)) == Failure(e)
    ensures PredictSync(input, decodeImage, runModel) == Failure(e)
  {
  }

  /**
    Once the image decodes and the model run, given the prompt's conversation and
    200 greedy tokens, returns text, the answer is that text cleaned up.
   */
  lemma PredictSyncAnswer<Image, E>(
    input: ModelInput,
    decodeImage: string -> Result<Image, E>,
    runModel: (Image, Conversation, GenerationParams) -> Result<string, E>,
    image: Image, decoded: string)
    requires decodeImage(ImageB64(input)) == Success(image)
    requires runModel(image, BuildConversation(PromptText(input)), GenerationParams(200, false)) == Success(decoded)
    ensures PredictSync(input, decodeImage, runModel) == Success(CleanOutput(decoded))
  {
  }

  /** An image that fails to decode ends the prediction with that error, whatever the model would do. */
  lemma PredictSyncDecodeFailure<Image, E>(
    input: ModelInput,
    decodeImage: string -> Result<Image, E>,
    runModel: (Image, Conversation, GenerationParams) -> Result<string, E>,
    otherModel: (Image, Conversation, GenerationParams) -> Result<string, E>)
    requires decodeImage(ImageB64(input)).Failure?
    ensures PredictSync(input, decodeImage, runModel) == Failure(decodeImage(ImageB64(input)).error)
    ensures PredictSync(input, decodeImage, runModel) == PredictSync(input, decodeImage, otherModel)
  {
  }

  /**
    A successful prediction came from a decoded image and a successful model run, its
    answer is that run's text cleaned up, and it is already clean: cleaning it again
    changes nothing.
   */
  lemma PredictSyncAnswerClean<Image, E>(
    input: ModelInput,
    decodeImage: string -> Result<Image, E>,
    runModel: (Image, Conversation, GenerationParams) -> Result<string, E>)
    requires PredictSync(input, decodeImage, runModel).Success?
    ensures decodeImage(ImageB64(input)).Success?
    ensures var run := runModel(decodeImage(ImageB64(input)).value, BuildConversation(PromptText(input)), GENERATION);
      run.Success? && PredictSync(input, decodeImage, runModel).value == CleanOutput(run.value)
    ensures var answer := PredictSync(input, decodeImage, runModel).value;
      CleanOutput(answer) == answer
  {
    var image := decodeImage(ImageB64(input)).value;
    var decoded := runModel(image, BuildConversation(PromptText(input)), GENERATION).value;
    CleanOutputIdempotent(decoded);
  }

  /** Sending a data URL or its bare payload gives the same prediction, whatever the backends. */
  lemma PredictSyncPrefixInvariant<Image, E>(
    input: ModelInput,
    payload: string,
    decodeImage: string -> Result<Image, E>,
    runModel: (Image, Conversation, GenerationParams) -> Result<string, E>)
    ensures PredictSync(input["image_b64" := BASE64_PREAMBLE + payload], decodeImage, runModel)
         == PredictSync(input["image_b64" := payload], decodeImage, runModel)
  {
    PrefixedSameAsBare(input, payload);
    assert PromptText(input["image_b64" := BASE64_PREAMBLE + payload])
        == PromptText(input["image_b64" := payload]);
  }
}
