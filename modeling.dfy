/**
 * `MultiModalBertModel` as an object: the fields `call` writes while it
 * assembles the backbone input, the loop over `modal_name_list` that extends
 * them, and the accessors that read them back. Each method is proved against
 * the functions of module Assembly.
 */
module Modeling {
  import opened Features
  import opened Spans
  import opened Assembly

  class MultiModalBertModel<T, V> {
    /** `params.enable_modal_type` and `params.modal_type_id`. */
    const config: Config
    /** The backbone's word-embedding table, as a lookup by token id. */
    const embed: int -> T
    /** `multimodal_dense[m]`, applied to one position of modality `m`. */
    const dense: (Modal, V) -> T
    /** Adding the `modal_type_embedding` row of an id to an embedding. */
    const typeEmbed: (T, int) -> T
    /** `self.modal_name_list`. */
    const modalNameList: seq<Modal> := ModalNames

    /** `self.embedding_output`; `None` until `call` first writes it. */
    var embeddingOutput: Option<seq<T>>
    /** `self.model_input_mask`. */
    var modelInputMask: Option<seq<int>>
    /** `self.model_token_type_ids`. */
    var modelTokenTypeIds: Option<seq<int>>
    /** `self.model_modal_type_ids`; written only when tagging is enabled. */
    var modelModalTypeIds: Option<seq<int>>

    constructor (config: Config, embed: int -> T, dense: (Modal, V) -> T, typeEmbed: (T, int) -> T)
      ensures this.config == config && this.embed == embed
      ensures this.dense == dense && this.typeEmbed == typeEmbed
      ensures embeddingOutput.None? && modelInputMask.None?
      ensures modelTokenTypeIds.None? && modelModalTypeIds.None?
    {
      this.config := config;
      this.embed := embed;
      this.dense := dense;
      this.typeEmbed := typeEmbed;
      embeddingOutput := None;
      modelInputMask := None;
      modelTokenTypeIds := None;
      modelModalTypeIds := None;
    }

    /**
     * The forward pass up to the backbone call. If `Assemble` fails, it
     * returns that error, leaves the mask, segment-id and modal-type fields
     * as they were, and leaves `embedding_output` as far as it got. If
     * `Assemble` succeeds, it caches the assembled tensors and returns the
     * backbone's arguments; when only the modal-type addition fails, those
     * fields are already cached and the result is `Err(ShapeMismatch)`.
     */
    method Call(f: Features<V>, training: bool) returns (r: Result<BackboneArgs<T>>)
      modifies this
      ensures Trace(config, embed, dense, f).Err? ==>
                r == Err(ReadText(f).error) &&
                embeddingOutput == old(embeddingOutput)
      ensures Trace(config, embed, dense, f).Ok? ==>
                embeddingOutput == Some(Trace(config, embed, dense, f).value.reached.embeddings)
      ensures Assemble(config, embed, dense, f).Err? ==>
                r == Err(Assemble(config, embed, dense, f).error) &&
                modelInputMask == old(modelInputMask) &&
                modelTokenTypeIds == old(modelTokenTypeIds) &&
                modelModalTypeIds == old(modelModalTypeIds)
      ensures Assemble(config, embed, dense, f).Ok? ==>
                var a := Assemble(config, embed, dense, f).value;
                modelInputMask == Some(a.mask) &&
                modelTokenTypeIds == Some(a.segmentIds) &&
                modelModalTypeIds == (if config.enableModalType then a.modalTypeIds
                                      else old(modelModalTypeIds)) &&
                r == ArgsOf(a, typeEmbed, training)
    {
      var text := ReadText(f);
      if text.Err? {
        return Err(text.error);
      }
      var t := text.value;
      embeddingOutput := Some(Gather(embed, t.ids));
      if |t.ids| == 0 {
        return Err(EmptyAxis(InputIds));
      }
      var sep := SepOf(embed, t.ids);
      var modalTypeIds: Option<seq<int>> := if config.enableModalType then Some(Fill(|t.ids|, 0)) else None;
      var run := AppendModalities(Assembled(embeddingOutput.value, t.mask, t.segmentIds, modalTypeIds), sep, f);
      TraceIsLoop(config, embed, dense, f);
      if run.failure.Some? {
        return Err(run.failure.value);
      }
      modelInputMask := Some(run.reached.mask);
      modelTokenTypeIds := Some(run.reached.segmentIds);
      if config.enableModalType {
        modelModalTypeIds := run.reached.modalTypeIds;
      }
      r := ArgsOf(run.reached, typeEmbed, training);
    }

    /**
     * The loop over `modal_name_list` (lines 89-132), from the text tensors
     * `start`. It returns the tensors reached and the error that stopped it,
     * if any; `embedding_output` holds the embeddings reached either way.
     */
    method AppendModalities(start: Assembled<T>, sep: T, f: Features<V>) returns (run: Run<T>)
      requires embeddingOutput == Some(start.embeddings)
      requires start.modalTypeIds.Some? == config.enableModalType
      modifies this`embeddingOutput
      ensures run == Steps(start, sep, config.modalTypeId, dense, f, ModalNames)
      ensures embeddingOutput == Some(run.reached.embeddings)
    {
      var inputMask, tokenTypeIds, modalTypeIds := start.mask, start.segmentIds, start.modalTypeIds;
      var i := 0;
      while i < |modalNameList|
        invariant 0 <= i <= |modalNameList|
        invariant embeddingOutput.Some?
        invariant modalTypeIds.Some? == config.enableModalType
        invariant Steps(start, sep, config.modalTypeId, dense, f, ModalNames) ==
                  Steps(Assembled(embeddingOutput.value, inputMask, tokenTypeIds, modalTypeIds),
                        sep, config.modalTypeId, dense, f, modalNameList[i..])
      {
        var m := modalNameList[i];
        ghost var acc := Assembled(embeddingOutput.value, inputMask, tokenTypeIds, modalTypeIds);
        assert modalNameList[i..][0] == m && modalNameList[i..][1..] == modalNameList[i + 1..];
        StepsFirst(acc, sep, config.modalTypeId, dense, f, modalNameList[i..]);
        var modal := f.Of(m);
        if modal.input.Absent? {
          i := i + 1;
          continue;
        }
        var span := ModalSpan(sep, config.modalTypeId, config.enableModalType, dense, modal, m);
        if span.Err? {
          return Run(Assembled(embeddingOutput.value, inputMask, tokenTypeIds, modalTypeIds), Some(span.error));
        }
        embeddingOutput := Some(embeddingOutput.value + span.value.embeddings);
        tokenTypeIds := tokenTypeIds + span.value.segmentIds;
        inputMask := inputMask + span.value.mask;
        if config.enableModalType {
          modalTypeIds := Some(modalTypeIds.value + span.value.modalTypeIds.value);
        }
        i := i + 1;
      }
      run := Run(Assembled(embeddingOutput.value, inputMask, tokenTypeIds, modalTypeIds), None);
    }

    /** `get_input_mask`: the mask `call` last cached. */
    method GetInputMask() returns (r: Option<seq<int>>)
      ensures r == modelInputMask
    {
      r := modelInputMask;
    }

    /** `get_token_type_ids`: the segment ids `call` last cached. */
    method GetTokenTypeIds() returns (r: Option<seq<int>>)
      ensures r == modelTokenTypeIds
    {
      r := modelTokenTypeIds;
    }

    /** `get_embedding_output`: the embeddings `call` last wrote. */
    method GetEmbeddingOutput() returns (r: Option<seq<T>>)
      ensures r == embeddingOutput
    {
      r := embeddingOutput;
    }
  }
}
