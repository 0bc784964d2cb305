/**
 * The sequence assembly of `MultiModalBertModel.call` as functions on one
 * batch row: reading and defaulting the text tensors, bracketing each present
 * modality with the text's final ([SEP]) embedding, and the argument record
 * handed to the backbone.
 */
module Assembly {
  import opened Features
  import opened Spans

  /** The parts of `params` the forward pass reads. */
  datatype Config = Config(enableModalType: bool, modalTypeId: map<Modal, int>)

  /** The text tensors of one row once the defaults are applied. */
  datatype Text = Text(ids: seq<int>, mask: seq<int>, segmentIds: seq<int>)

  /**
   * The four running tensors the loop extends by concatenation. `modalTypeIds`
   * is `None` exactly when modal-type tagging is disabled, as in the source.
   */
  datatype Assembled<T> = Assembled(
    embeddings: seq<T>,
    mask: seq<int>,
    segmentIds: seq<int>,
    modalTypeIds: Option<seq<int>>)

  /**
   * Reading 'input_ids', 'input_mask' and 'segment_ids' by subscript, then
   * replacing a `None` mask by ones and a `None` segment row by zeros.
   * A missing key fails; only a `None` value is defaulted.
   */
  function ReadText<V>(f: Features<V>): (r: Result<Text>)
    ensures f.inputIds.Absent? ==> r == Err(MissingKey(InputIds))
    ensures !f.inputIds.Absent? && f.inputMask.Absent? ==> r == Err(MissingKey(InputMask))
    ensures !f.inputIds.Absent? && !f.inputMask.Absent? && f.segmentIds.Absent? ==>
              r == Err(MissingKey(SegmentIds))
    ensures f.inputIds.Null? && !f.inputMask.Absent? && !f.segmentIds.Absent? ==>
              r == Err(NoneValue(InputIds))
    ensures r.Ok? <==> f.inputIds.Given? && !f.inputMask.Absent? && !f.segmentIds.Absent?
    ensures r.Ok? ==> r.value.ids == f.inputIds.value
    ensures r.Ok? && f.inputMask.Given? ==> r.value.mask == f.inputMask.value
    ensures r.Ok? && f.inputMask.Null? ==>
              |r.value.mask| == |r.value.ids| &&
              forall i :: 0 <= i < |r.value.mask| ==> r.value.mask[i] == 1
    ensures r.Ok? && f.segmentIds.Given? ==> r.value.segmentIds == f.segmentIds.value
    ensures r.Ok? && f.segmentIds.Null? ==>
              |r.value.segmentIds| == |r.value.ids| &&
              forall i :: 0 <= i < |r.value.segmentIds| ==> r.value.segmentIds[i] == 0
  {
    if f.inputIds.Absent? then Err(MissingKey(InputIds))
    else if f.inputMask.Absent? then Err(MissingKey(InputMask))
    else if f.segmentIds.Absent? then Err(MissingKey(SegmentIds))
    else if f.inputIds.Null? then Err(NoneValue(InputIds))
    else
      var ids := f.inputIds.value;
      var mask := if f.inputMask.Null? then Fill(|ids|, 1) else f.inputMask.value;
      var segmentIds := if f.segmentIds.Null? then Fill(|ids|, 0) else f.segmentIds.value;
      Ok(Text(ids, mask, segmentIds))
  }

  /** The running tensors before the loop: text embeddings, and all-zero modal-type ids when tagging. */
  function Start<T>(cfg: Config, table: int -> T, t: Text): (r: Assembled<T>)
    ensures |r.embeddings| == |t.ids|
    ensures forall i :: 0 <= i < |t.ids| ==> r.embeddings[i] == table(t.ids[i])
    ensures r.mask == t.mask && r.segmentIds == t.segmentIds
    ensures r.modalTypeIds.Some? <==> cfg.enableModalType
    ensures r.modalTypeIds.Some? ==>
              |r.modalTypeIds.value| == |t.ids| &&
              forall i :: 0 <= i < |t.ids| ==> r.modalTypeIds.value[i] == 0
  {
    Assembled(Gather(table, t.ids), t.mask, t.segmentIds,
              if cfg.enableModalType then Some(Fill(|t.ids|, 0)) else None)
  }

  /**
   * A modality's segment-id or mask row bracketed by its own first value:
   * `[s[0]] + s + [s[0]]`. The key must exist, hold a tensor, and
   * that tensor must have a first position.
   */
  function Edged(e: Entry<seq<int>>, k: Key): (r: Result<seq<int>>)
    ensures e.Absent? ==> r == Err(MissingKey(k))
    ensures e.Null? ==> r == Err(NoneValue(k))
    ensures e.Given? && |e.value| == 0 ==> r == Err(EmptyAxis(k))
    ensures r.Ok? <==> e.Given? && |e.value| > 0
    ensures r.Ok? ==>
              |r.value| == |e.value| + 2 &&
              r.value[0] == e.value[0] && r.value[|e.value| + 1] == e.value[0] &&
              r.value[1..|e.value| + 1] == e.value
  {
    match e
    case Absent => Err(MissingKey(k))
    case Null => Err(NoneValue(k))
    case Given(s) => if |s| == 0 then Err(EmptyAxis(k)) else Ok(Bracket(s[0], s))
  }

  /**
   * The four spans one modality contributes (lines 102-121), in the shape of
   * the running tensors: its projected input bracketed by `sep`, its segment
   * and mask rows bracketed by their first value, and, when `tagged`, its
   * modal-type id over the whole span. Each subscript of the features can
   * fail, in the order the source performs them.
   */
  function ModalSpan<T, V>(sep: T, typeIds: map<Modal, int>, tagged: bool,
                           dense: (Modal, V) -> T, mf: ModalFeatures<V>, m: Modal): (r: Result<Assembled<T>>)
    ensures mf.input.Absent? ==> r == Err(MissingKey(ModalInput(m)))
    ensures mf.input.Null? ==> r == Err(NoneValue(ModalInput(m)))
    ensures mf.input.Given? && Edged(mf.segmentIds, ModalSegmentIds(m)).Err? ==>
              r == Err(Edged(mf.segmentIds, ModalSegmentIds(m)).error)
    ensures mf.input.Given? && Edged(mf.segmentIds, ModalSegmentIds(m)).Ok? &&
            Edged(mf.mask, ModalMask(m)).Err? ==>
              r == Err(Edged(mf.mask, ModalMask(m)).error)
    ensures r.Ok? <==>
              mf.input.Given? && Edged(mf.segmentIds, ModalSegmentIds(m)).Ok? &&
              Edged(mf.mask, ModalMask(m)).Ok? && (tagged ==> m in typeIds)
    ensures (r.Err? && mf.input.Given? && Edged(mf.segmentIds, ModalSegmentIds(m)).Ok? &&
             Edged(mf.mask, ModalMask(m)).Ok?) ==> r == Err(MissingTypeId(m))
    ensures r.Ok? ==>
              r.value.embeddings == Bracket(sep, Project(dense, m, mf.input.value)) &&
              r.value.segmentIds == Edged(mf.segmentIds, ModalSegmentIds(m)).value &&
              r.value.mask == Edged(mf.mask, ModalMask(m)).value &&
              (r.value.modalTypeIds.Some? <==> tagged) &&
              (tagged ==> r.value.modalTypeIds.value == Fill(|mf.segmentIds.value| + 2, typeIds[m]))
  {
    match mf.input
    case Absent => Err(MissingKey(ModalInput(m)))
    case Null => Err(NoneValue(ModalInput(m)))
    case Given(xs) =>
      var modalInput := Bracket(sep, Project(dense, m, xs));
      match Edged(mf.segmentIds, ModalSegmentIds(m))
      case Err(e) => Err(e)
      case Ok(modalSegmentIds) =>
        match Edged(mf.mask, ModalMask(m))
        case Err(e) => Err(e)
        case Ok(modalMask) =>
          if !tagged then Ok(Assembled(modalInput, modalMask, modalSegmentIds, None))
          else if m !in typeIds then Err(MissingTypeId(m))
          else Ok(Assembled(modalInput, modalMask, modalSegmentIds,
                            Some(Fill(|modalSegmentIds|, typeIds[m]))))
  }

  /** The running tensors with a span appended to each row (lines 124-132). */
  function Concat<T>(acc: Assembled<T>, span: Assembled<T>): (r: Assembled<T>)
    requires span.modalTypeIds.Some? == acc.modalTypeIds.Some?
    ensures r.modalTypeIds.Some? == acc.modalTypeIds.Some?
  {
    Assembled(acc.embeddings + span.embeddings, acc.mask + span.mask, acc.segmentIds + span.segmentIds,
              match acc.modalTypeIds
              case None => None
              case Some(types) => Some(types + span.modalTypeIds.value))
  }

  /**
   * One iteration of the loop over `modal_name_list`. An absent
   * '{m}_input' key skips the modality; otherwise its spans are appended.
   * Tagging is on exactly when the running modal-type row exists.
   */
  function Step<T, V>(acc: Assembled<T>, sep: T, typeIds: map<Modal, int>,
                      dense: (Modal, V) -> T, f: Features<V>, m: Modal): (r: Result<Assembled<T>>)
    ensures r.Ok? ==> r.value.modalTypeIds.Some? == acc.modalTypeIds.Some?
  {
    if f.Of(m).input.Absent? then Ok(acc)
    else
      match ModalSpan(sep, typeIds, acc.modalTypeIds.Some?, dense, f.Of(m), m)
      case Err(e) => Err(e)
      case Ok(span) => Ok(Concat(acc, span))
  }

  /**
   * Where a run of the loop got to: the tensors reached, and the error that
   * stopped it, if any. The source writes `self.embedding_output` before
   * every point that can fail, so `reached.embeddings` is what that field
   * holds afterwards either way.
   */
  datatype Run<T> = Run(reached: Assembled<T>, failure: Option<Error>)

  /** The loop over `ms`, left to right, stopping at the first failing modality. */
  function Steps<T, V>(acc: Assembled<T>, sep: T, typeIds: map<Modal, int>,
                       dense: (Modal, V) -> T, f: Features<V>, ms: seq<Modal>): (r: Run<T>)
    ensures r.reached.modalTypeIds.Some? == acc.modalTypeIds.Some?
    decreases |ms|
  {
    if ms == [] then Run(acc, None)
    else
      match Step(acc, sep, typeIds, dense, f, ms[0])
      case Err(e) => Run(acc, Some(e))
      case Ok(next) => Steps(next, sep, typeIds, dense, f, ms[1..])
  }

  /** The loop after its first modality: stopped there, or continuing from the extended tensors. */
  lemma StepsFirst<T, V>(acc: Assembled<T>, sep: T, typeIds: map<Modal, int>,
                         dense: (Modal, V) -> T, f: Features<V>, ms: seq<Modal>)
    requires ms != []
    ensures var step := Step(acc, sep, typeIds, dense, f, ms[0]);
            Steps(acc, sep, typeIds, dense, f, ms) ==
              if step.Err? then Run(acc, Some(step.error)) else Steps(step.value, sep, typeIds, dense, f, ms[1..])
  {
  }

  /**
   * `self.embedding_output[:, -1, :]` right after the lookup: the [SEP]
   * embedding, which is the table row of the last text token.
   */
  function SepOf<T>(table: int -> T, ids: seq<int>): (r: T)
    requires |ids| > 0
    ensures r == Gather(table, ids)[|ids| - 1]
  {
    table(ids[|ids| - 1])
  }

  /**
   * Everything from the start of `call` up to the end of the loop. `Err`:
   * a failure before `self.embedding_output` is first written. `Ok(run)`:
   * that field was written and holds `run.reached.embeddings`.
   */
  function Trace<T, V>(cfg: Config, table: int -> T, dense: (Modal, V) -> T,
                       f: Features<V>): (r: Result<Run<T>>)
    ensures r.Err? <==> ReadText(f).Err?
    ensures r.Err? ==> r.error == ReadText(f).error
    ensures r.Ok? ==> |ReadText(f).value.ids| <= |r.value.reached.embeddings|
    ensures r.Ok? ==> r.value.reached.embeddings[..|ReadText(f).value.ids|] ==
                      Gather(table, ReadText(f).value.ids)
    ensures r.Ok? && |ReadText(f).value.ids| == 0 ==>
              r.value.failure == Some(EmptyAxis(InputIds))
  {
    match ReadText(f)
    case Err(e) => Err(e)
    case Ok(t) =>
      var acc := Start(cfg, table, t);
      if |t.ids| == 0 then Ok(Run(acc, Some(EmptyAxis(InputIds))))
      else
        var sep := SepOf(table, t.ids);
        Ok(Steps(acc, sep, cfg.modalTypeId, dense, f, ModalNames))
  }

  /** The assembled tensors `call` caches, or the error it raises first. */
  function Assemble<T, V>(cfg: Config, table: int -> T, dense: (Modal, V) -> T,
                          f: Features<V>): (r: Result<Assembled<T>>)
    ensures r.Ok? <==> Trace(cfg, table, dense, f).Ok? && Trace(cfg, table, dense, f).value.failure.None?
    ensures r.Ok? ==> r.value == Trace(cfg, table, dense, f).value.reached
    ensures r.Err? && Trace(cfg, table, dense, f).Ok? ==>
              Trace(cfg, table, dense, f).value.failure == Some(r.error)
    ensures r.Err? && Trace(cfg, table, dense, f).Err? ==> r.error == ReadText(f).error
    ensures r.Ok? ==> r.value.modalTypeIds.Some? == cfg.enableModalType
  {
    match Trace(cfg, table, dense, f)
    case Err(e) => Err(e)
    case Ok(run) =>
      match run.failure
      case Some(e) => Err(e)
      case None => Ok(run.reached)
  }

  /** Past the text checks, the pass is the loop from the text tensors, with the last token's row as [SEP]. */
  lemma TraceIsLoop<T, V>(cfg: Config, table: int -> T, dense: (Modal, V) -> T, f: Features<V>)
    requires ReadText(f).Ok? && |ReadText(f).value.ids| > 0
    ensures var t := ReadText(f).value;
            var run := Steps(Start(cfg, table, t), SepOf(table, t.ids), cfg.modalTypeId, dense, f, ModalNames);
            Trace(cfg, table, dense, f) == Ok(run) &&
            Assemble(cfg, table, dense, f) == if run.failure.Some? then Err(run.failure.value) else Ok(run.reached)
  {
  }

  /** The keyword arguments of the backbone call. */
  datatype BackboneArgs<T> = BackboneArgs(
    inputIds: Option<seq<int>>,
    inputsEmbeds: seq<T>,
    attentionMask: seq<int>,
    tokenTypeIds: seq<int>,
    positionIds: seq<int>,
    training: bool,
    outputHiddenStates: bool,
    returnDict: bool)

  /**
   * `word_embedding`: the assembled embeddings, plus the modal-type
   * embedding of each position when tagging. The elementwise addition
   * fails when the two rows differ in length.
   */
  function WordEmbedding<T>(a: Assembled<T>, typeEmbed: (T, int) -> T): (r: Result<seq<T>>)
    ensures a.modalTypeIds.None? ==> r == Ok(a.embeddings)
    ensures a.modalTypeIds.Some? ==> (r.Ok? <==> |a.modalTypeIds.value| == |a.embeddings|)
    ensures r.Err? ==> r.error == ShapeMismatch
    ensures r.Ok? ==> |r.value| == |a.embeddings|
    ensures r.Ok? && a.modalTypeIds.Some? ==>
              forall i :: 0 <= i < |a.embeddings| ==>
                r.value[i] == typeEmbed(a.embeddings[i], a.modalTypeIds.value[i])
  {
    match a.modalTypeIds
    case None => Ok(a.embeddings)
    case Some(types) =>
      if |types| != |a.embeddings| then Err(ShapeMismatch)
      else Ok(seq(|types|, i requires 0 <= i < |types| => typeEmbed(a.embeddings[i], types[i])))
  }

  /**
   * The record handed to the backbone: no token ids, the word embeddings,
   * and the assembled mask in BOTH the attention-mask and position-id slots.
   */
  function ArgsOf<T>(a: Assembled<T>, typeEmbed: (T, int) -> T, training: bool): (r: Result<BackboneArgs<T>>)
    ensures r.Ok? <==> WordEmbedding(a, typeEmbed).Ok?
    ensures r.Err? ==> r.error == ShapeMismatch
    ensures r.Ok? ==>
              r.value.inputIds.None? &&
              r.value.inputsEmbeds == WordEmbedding(a, typeEmbed).value &&
              r.value.attentionMask == a.mask &&
              r.value.positionIds == a.mask &&
              r.value.tokenTypeIds == a.segmentIds &&
              r.value.training == training &&
              r.value.outputHiddenStates && r.value.returnDict
  {
    match WordEmbedding(a, typeEmbed)
    case Err(e) => Err(e)
    case Ok(word) =>
      Ok(BackboneArgs(None, word, a.mask, a.segmentIds, a.mask, training, true, true))
  }
}
