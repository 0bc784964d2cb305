# Multimodal input assembly of `MultiModalBertModel`

This project models the forward pass of `MultiModalBertModel.call` in
`bert_multitask_learning/modeling.py` up to the point where the backbone
transformer is called. The model takes a features dictionary holding a text
token row and up to two extra modalities, `image` and then `others`, and
builds the backbone's input:

- The text token ids are looked up in the word-embedding table.
- A `None` mask becomes all ones. A `None` segment row becomes all zeros.
- Each modality whose `{modal}_input` key is present is projected by its
  `Dense` layer and bracketed by two copies of the text's last ([SEP])
  embedding.
- Its segment-id and mask rows are bracketed by their own first value.
- With modal-type tagging on, every position of the modality's span gets the
  modality's id, and every text position gets 0.
- All of these are appended to the text tensors, image first.

The object caches the results in `embedding_output`, `model_input_mask`,
`model_token_type_ids` and `model_modal_type_ids`. Three accessors read back
`embedding_output`, `model_input_mask` and `model_token_type_ids`; there is
none for `model_modal_type_ids`. A call hands the backbone an argument record in which the
assembled mask is both the attention mask and the position ids.

The model covers one batch row. Embeddings have an abstract type `T`, and a
modality's native feature vectors an abstract type `V`. The backbone's
embedding table is a lookup `int -> T`. A per-modality `Dense` layer is a
function `(Modal, V) -> T` applied to each position on its own, as `Dense`
acts on the feature axis only. Adding a modal-type embedding is a function
`(T, int) -> T`.

A dictionary slot is `Absent`, `Null` (the key maps to `None`) or
`Given(value)`, so the model keeps a missing key apart from a `None` value.
The code subscripts `features_dict['input_mask']` and
`features_dict['segment_ids']` directly. A missing key therefore raises and
is never defaulted; only a `None` value is. Each of the following raises
becomes an `Error` value rather than a precondition:

- a missing key or a `None` value;
- `[:, -1]` on an empty text row;
- `[:, 0]` on an empty modality segment or mask row;
- a modality without an entry in `modal_type_id` while tagging;
- the addition of embeddings and modal-type embeddings of different lengths.

`WordEmbedding` treats every length mismatch as an error, where the `+` at
line 141 would broadcast a row of length 1. On what `Assemble` produces the
two cases agree: without a modality both rows have text length, and with
one both rows are at least text length + 2 long, so neither has length 1.

Files:

- `features.dfy`: module `Features`, the features dictionary, its keys and the errors.
- `spans.dfy`: module `Spans`, the per-row tensor builders. These are fill,
  bracketing, gather and projection.
- `assembly.dfy`: module `Assembly`. The assembly is written as functions,
  one loop iteration (`Step`) folded over the modality list (`Steps`), plus
  the backbone argument record.
- `properties.dfy`: module `AssemblyProperties`, the lemmas: the layout of
  each span, lengths, the text prefix, modal-type ids, when the loop
  succeeds, and two concrete rows.
- `modeling.dfy`: module `Modeling`, the class `MultiModalBertModel` with
  its cached fields. `Call` reads the text, writes `embeddingOutput`, runs the
  loop, caches the results and builds the backbone arguments. The loop over
  `modalNameList` (lines 89-132) is the method `AppendModalities`. Both are
  proved equal to the functions of `Assembly`. The class also holds the
  accessors.

The docstring of `get_embedding_output` (lines 179-186) says the field holds
word, position and token-type embeddings summed and normalised. The code
stores only the gathered word embeddings with the modality spans appended,
without even the modal-type embedding. The model follows the code.

The modality keys `{modal}_segment_ids` and `{modal}_mask` are read by
subscript once the `{modal}_input` key is present. A dictionary that lacks
them makes the subscript raise `KeyError`, and the model has this as an
error result.

## Model

| member | source | states |
|---|---|---|
| Assembly.ReadText | bert_multitask_learning/modeling.py:56-71 | Missing 'input_ids', 'input_mask' or 'segment_ids' keys fail in that order, and a `None` token row fails. A `None` mask becomes ones and a `None` segment row zeros, both as long as the ids. Given rows pass through unchanged. |
| Assembly.Start | bert_multitask_learning/modeling.py:75-87 | Before the loop, the embeddings are the table rows of the ids in order and the mask and segment ids are the text's. The modal-type row exists exactly when tagging is on, and then it is all zeros of text length. |
| Assembly.Edged | bert_multitask_learning/modeling.py:109-117 | A modality row that is present and non-empty becomes `[s[0]] + s + [s[0]]`. A missing key, a `None` value and an empty row each give their own error. |
| Assembly.ModalSpan | bert_multitask_learning/modeling.py:102-121 | A modality's spans, or the first error in source order: a missing or `None` input, then the segment row's and then the mask row's errors, then a missing `modal_type_id` entry when tagging. On success the embeddings are `sep`, the projected inputs and `sep`; the segment and mask rows are bracketed by their first value; with tagging, the modal-type row holds the modality's id at all L + 2 positions. |
| Assembly.Concat | bert_multitask_learning/modeling.py:124-132 | Appending a span keeps modal-type tagging on exactly when it was on. |
| Assembly.Step | bert_multitask_learning/modeling.py:89-132 | One iteration keeps modal-type tagging on exactly when it was on. |
| Assembly.Steps | bert_multitask_learning/modeling.py:89-132 | Running the loop keeps modal-type tagging on exactly when it was on. |
| Assembly.SepOf | bert_multitask_learning/modeling.py:80-81 | The [SEP] embedding is the last row of the gathered text embeddings, that is, the table row of the last token id. |
| Assembly.Trace | bert_multitask_learning/modeling.py:56-132 | The pass fails before `embedding_output` is written exactly when reading the text fails. Once written, that field starts with the gathered text embeddings. An empty text row fails at the [SEP] extraction. |
| Assembly.Assemble | bert_multitask_learning/modeling.py:56-137 | It succeeds exactly when the loop runs to the end. Its error is the first one raised. A successful result has a modal-type row exactly when tagging is on. |
| Assembly.WordEmbedding | bert_multitask_learning/modeling.py:139-142 | Without tagging the word embeddings are the assembled embeddings. With tagging, each position is combined with its modal-type id, and rows of different lengths fail. |
| Assembly.ArgsOf | bert_multitask_learning/modeling.py:144-153 | The backbone gets no token ids and the word embeddings as input embeddings. The assembled mask is both `attention_mask` and `position_ids`, next to the segment ids, the training flag, hidden states on and dict return on. |
| Spans.Fill | bert_multitask_learning/modeling.py:65-71 | `n` copies of one value, as used for the default mask, the default segment ids and modal-type rows. |
| Spans.Bracket | bert_multitask_learning/modeling.py:106-117 | A body bracketed by one edge value has two more positions. The edge is first and last, and the body sits in between in order. |
| Spans.Gather | bert_multitask_learning/modeling.py:75-76 | The embedding lookup keeps the length, and each position holds the table row of its id. |
| Spans.Project | bert_multitask_learning/modeling.py:102-103 | The `Dense` projection keeps the length and the order, and projects each position on its own. |
| AssemblyProperties.StepSucceedsIff | bert_multitask_learning/modeling.py:93-121 | One iteration succeeds if and only if the input key is absent, or the input, segment and mask rows are all given, the latter two non-empty, and with tagging on the modality has a type id. |
| AssemblyProperties.StepAppends | bert_multitask_learning/modeling.py:102-132 | A successful iteration appends exactly the modality's bracketed embedding, mask, segment and modal-type spans, or nothing when its input key is absent. |
| AssemblyProperties.StepsSucceedIff | bert_multitask_learning/modeling.py:89-132 | The loop runs to the end if and only if every modality in the list admits its iteration. |
| AssemblyProperties.StepsAppend | bert_multitask_learning/modeling.py:89-132 | A completed loop appends the modalities' spans in list order to each of the four rows. |
| AssemblyProperties.StepsLengths | bert_multitask_learning/modeling.py:106-132 | With consistent shapes, a completed loop lengthens every row by the sum of (L + 2) over the present modalities. |
| AssemblyProperties.StepsExtend | bert_multitask_learning/modeling.py:89-132 | The loop only appends, whether it completes or stops at a failing modality. What it started from is a prefix of every row it reaches, `embedding_output` included, and tagging stays as it was. |
| AssemblyProperties.NoModalities | bert_multitask_learning/modeling.py:89-94 | With no `{modal}_input` key, the loop changes nothing and does not fail. |
| AssemblyProperties.AssembleLayout | bert_multitask_learning/modeling.py:89-132 | In each row, a successful assembly is the text part, then the image span if its key is present, then the others span if its key is present. Each span depends only on its own modality's features. |
| AssemblyProperties.AssembleIsLoop | bert_multitask_learning/modeling.py:75-132 | A successful assembly is a full run of the loop from the text tensors, with the table row of the last token id as the [SEP] embedding. |
| AssemblyProperties.PartsOfModalNames | bert_multitask_learning/modeling.py:89-94 | Over `modal_name_list` the appended parts are the image part followed by the others part. |
| AssemblyProperties.TextOnly | bert_multitask_learning/modeling.py:89-129 | With neither modality key present, the result is the text alone: the gathered embeddings of text length, with the defaulted mask and segment ids. |
| AssemblyProperties.AssembleLengths | bert_multitask_learning/modeling.py:106-142 | With consistent shapes, the embeddings, mask, segment ids and modal-type ids all have length text length + Σ(Lᵢ + 2), so adding the modal-type embedding cannot fail. |
| AssemblyProperties.TextPrefix | bert_multitask_learning/modeling.py:75-132 | The text embeddings, mask and segment ids are unchanged prefixes of the result. With tagging, the text positions carry modal-type id 0. |
| AssemblyProperties.AssembleAdmits | bert_multitask_learning/modeling.py:93-121 | In a successful assembly, both image and others admitted their iteration. |
| AssemblyProperties.AssembleSucceedsIff | bert_multitask_learning/modeling.py:56-121 | The whole pass succeeds if and only if the text reads, its token row is non-empty, and image and others both admit their iteration. |
| AssemblyProperties.ImageSpan | bert_multitask_learning/modeling.py:80-129 | Right after the text, the image span is [SEP], then the projected image inputs in order, then [SEP]. The segment and mask rows there are `[s[0]] + s + [s[0]]` of the image's own rows. |
| AssemblyProperties.OthersSpan | bert_multitask_learning/modeling.py:80-129 | After the text and image spans, the others span closes every row with the same layout. |
| AssemblyProperties.ModalTypeSpans | bert_multitask_learning/modeling.py:119-132 | With tagging, each present modality's whole bracketed span, both [SEP] positions included, carries its `modal_type_id`. |
| AssemblyProperties.TextOnlyExample | bert_multitask_learning/modeling.py:65-71 | Text `[101, 7, 8, 9, 102]` with `None` mask and segment ids gives mask `[1,1,1,1,1]`, segment ids `[0,0,0,0,0]` and five embeddings. |
| AssemblyProperties.ImageExampleTypes | bert_multitask_learning/modeling.py:83-132 | The same text plus a three-position image, with tagging on, gives ten positions whose modal-type ids are five 0s then five 1s. |
| AssemblyProperties.ImageExample | bert_multitask_learning/modeling.py:80-125 | In that example, positions 5 to 9 are the [SEP] embedding, the three projected image inputs, and the [SEP] embedding. |
| Modeling.MultiModalBertModel.constructor | bert_multitask_learning/modeling.py:27-54 | The object keeps the configuration, the embedding table, the `Dense` layers and the type embedding. No cached field is set yet. |
| Modeling.MultiModalBertModel.Call | bert_multitask_learning/modeling.py:56-153 | When `Assemble` succeeds, the mask and segment ids are cached, and the modal-type ids too but only when tagging, and the result is the backbone argument record of `ArgsOf`. That record is `Err(ShapeMismatch)` when adding the modal-type embedding fails, and the three fields are then already cached. When `Assemble` fails, its error is returned and the mask, segment-id and modal-type fields are untouched. `embedding_output` holds what was written before the raise, and is unchanged if the text itself fails to read. |
| Modeling.MultiModalBertModel.AppendModalities | bert_multitask_learning/modeling.py:89-132 | The loop over `modal_name_list`, run on the running tensors and the `embedding_output` field, reaches exactly the tensors and the failure of `Steps`. `embedding_output` holds the embeddings reached, whether or not the loop stopped early. |
| Modeling.MultiModalBertModel.GetInputMask | bert_multitask_learning/modeling.py:192-193 | Returns the cached model input mask. |
| Modeling.MultiModalBertModel.GetTokenTypeIds | bert_multitask_learning/modeling.py:195-196 | Returns the cached token type ids. |
| Modeling.MultiModalBertModel.GetEmbeddingOutput | bert_multitask_learning/modeling.py:178-187 | Returns the cached embedding output. |

## Left out

- Backbone construction (lines 28-37): loading a pretrained transformer and the dummy-input call are library calls. The embedding dimension is implicit in `T`.
- The transformer forward pass (lines 144-153): `Call` returns the argument record it would receive instead of the backbone's outputs.
- `sequence_output`, `pooled_output` with its mean-pooling fallback, and `all_encoder_layers` (lines 154-161), with their accessors `get_pooled_output`, `get_sequence_output` and `get_all_encoder_layers` (lines 163-176): these are backbone outputs and floating-point reductions.
- The `Dense` weights and the modal-type `Embedding` table (lines 41-52, 139-142): learned floating-point parameters. The model uses abstract functions. An out-of-range modal-type id is not checked against the table size `len(modal_name_list) + 1`.
- `tf.gather` with an id outside the vocabulary: the table is a total function.
- `LOGGER.warning` when a modality is present but tagging is off (lines 96-98): logging only.
- `get_embedding_table` (lines 189-190): a wrapper over a library helper that is not part of this model.
- GetInputMask, GetTokenTypeIds, GetEmbeddingOutput: a field that `call` has not yet written reads as `None`, where the source raises `AttributeError` because `__init__` (lines 28-54) never sets it.
- The batch axis: one row is modelled. Every operation acts on each row alike.
- Tensor dtypes (`tf.int32`) and `get_shape_list` (lines 61-63): rows are unbounded integers. In the source, `tf.concat` at lines 126-132 raises when its pieces differ in dtype. This happens when the `tf.int32` default rows of lines 66-71 meet a caller's int64 `{modal}_segment_ids` or `{modal}_mask`, or when `tf.zeros_like(input_ids)` and `tf.ones_like(modal_segment_ids) * id` take different dtypes from their inputs. The model does not see either raise.
- The feature width of a modality's input: `V` is abstract. A `Dense` layer fixes its input width on its first call, so a later call with a different width raises at line 102. The model does not see this raise.
