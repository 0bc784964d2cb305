/**
 * What the assembly promises: the layout of each modality's span, the
 * lengths of the four assembled rows, the text prefix left as it was, the
 * modal-type ids, and when the loop succeeds.
 */
module AssemblyProperties {
  import opened Features
  import opened Spans
  import opened Assembly

  // ---------------------------------------------------------------------
  // What one modality contributes when its step succeeds

  function EmbPart<T, V>(sep: T, dense: (Modal, V) -> T, mf: ModalFeatures<V>, m: Modal): seq<T>
  {
    if mf.input.Given? then Bracket(sep, Project(dense, m, mf.input.value)) else []
  }

  function EdgePart<V>(mf: ModalFeatures<V>, e: Entry<seq<int>>): seq<int>
  {
    if mf.input.Given? && e.Given? && |e.value| > 0 then Bracket(e.value[0], e.value) else []
  }

  function TypePart<V>(typeIds: map<Modal, int>, mf: ModalFeatures<V>, m: Modal): seq<int>
  {
    if mf.input.Given? && mf.segmentIds.Given? && m in typeIds
    then Fill(|mf.segmentIds.value| + 2, typeIds[m]) else []
  }

  function EmbParts<T, V>(sep: T, dense: (Modal, V) -> T, f: Features<V>, ms: seq<Modal>): seq<T>
    decreases |ms|
  {
    if ms == [] then [] else EmbPart(sep, dense, f.Of(ms[0]), ms[0]) + EmbParts(sep, dense, f, ms[1..])
  }

  function MaskParts<V>(f: Features<V>, ms: seq<Modal>): seq<int>
    decreases |ms|
  {
    if ms == [] then [] else EdgePart(f.Of(ms[0]), f.Of(ms[0]).mask) + MaskParts(f, ms[1..])
  }

  function SegParts<V>(f: Features<V>, ms: seq<Modal>): seq<int>
    decreases |ms|
  {
    if ms == [] then [] else EdgePart(f.Of(ms[0]), f.Of(ms[0]).segmentIds) + SegParts(f, ms[1..])
  }

  function TypeParts<V>(typeIds: map<Modal, int>, f: Features<V>, ms: seq<Modal>): seq<int>
    decreases |ms|
  {
    if ms == [] then [] else TypePart(typeIds, f.Of(ms[0]), ms[0]) + TypeParts(typeIds, f, ms[1..])
  }

  /** The step for `m` goes through: the input is absent, or complete and usable. */
  predicate Admits<V>(typeIds: map<Modal, int>, tagged: bool, mf: ModalFeatures<V>, m: Modal)
  {
    mf.input.Absent? ||
    (mf.input.Given? &&
     mf.segmentIds.Given? && |mf.segmentIds.value| > 0 &&
     mf.mask.Given? && |mf.mask.value| > 0 &&
     (tagged ==> m in typeIds))
  }

  /** A present modality whose segment and mask rows have the length of its input. */
  predicate Consistent<V>(mf: ModalFeatures<V>)
  {
    mf.input.Given? ==>
      mf.segmentIds.Given? && mf.mask.Given? &&
      |mf.segmentIds.value| == |mf.input.value| &&
      |mf.mask.value| == |mf.input.value|
  }

  /** The given text mask and segment rows are as long as the token ids. */
  predicate TextConsistent<V>(f: Features<V>)
  {
    f.inputIds.Given? &&
    (f.inputMask.Given? ==> |f.inputMask.value| == |f.inputIds.value|) &&
    (f.segmentIds.Given? ==> |f.segmentIds.value| == |f.inputIds.value|)
  }

  /** The positions a present modality adds: its length plus the two [SEP] brackets. */
  function Extra<V>(mf: ModalFeatures<V>): nat
  {
    if mf.input.Given? then |mf.input.value| + 2 else 0
  }

  function Extras<V>(f: Features<V>, ms: seq<Modal>): nat
    decreases |ms|
  {
    if ms == [] then 0 else Extra(f.Of(ms[0])) + Extras(f, ms[1..])
  }

  lemma AppendAssoc<X>(a: seq<X>, b: seq<X>, c: seq<X>)
    ensures a + b + c == a + (b + c)
  {
  }

  // ---------------------------------------------------------------------
  // One step

  lemma StepSucceedsIff<T, V>(acc: Assembled<T>, sep: T, typeIds: map<Modal, int>,
                              dense: (Modal, V) -> T, f: Features<V>, m: Modal)
    ensures Step(acc, sep, typeIds, dense, f, m).Ok? <==>
            Admits(typeIds, acc.modalTypeIds.Some?, f.Of(m), m)
  {
  }

  lemma StepAppends<T, V>(acc: Assembled<T>, sep: T, typeIds: map<Modal, int>,
                          dense: (Modal, V) -> T, f: Features<V>, m: Modal)
    requires Step(acc, sep, typeIds, dense, f, m).Ok?
    ensures var a := Step(acc, sep, typeIds, dense, f, m).value; var mf := f.Of(m);
            a.embeddings == acc.embeddings + EmbPart(sep, dense, mf, m) &&
            a.mask == acc.mask + EdgePart(mf, mf.mask) &&
            a.segmentIds == acc.segmentIds + EdgePart(mf, mf.segmentIds) &&
            (acc.modalTypeIds.None? ==> a.modalTypeIds.None?) &&
            (acc.modalTypeIds.Some? ==>
               a.modalTypeIds == Some(acc.modalTypeIds.value + TypePart(typeIds, mf, m)))
  {
    var mf := f.Of(m);
    if mf.input.Absent? {
      assert acc.embeddings + [] == acc.embeddings;
      assert acc.mask + [] == acc.mask;
      assert acc.segmentIds + [] == acc.segmentIds;
      if acc.modalTypeIds.Some? {
        assert acc.modalTypeIds.value + [] == acc.modalTypeIds.value;
      }
    }
  }

  // ---------------------------------------------------------------------
  // The loop

  /** The loop goes through exactly when every modality in the list admits its step. */
  lemma {:induction false} StepsSucceedIff<T, V>(acc: Assembled<T>, sep: T, typeIds: map<Modal, int>,
                                                dense: (Modal, V) -> T, f: Features<V>, ms: seq<Modal>)
    ensures Steps(acc, sep, typeIds, dense, f, ms).failure.None? <==>
            forall i :: 0 <= i < |ms| ==> Admits(typeIds, acc.modalTypeIds.Some?, f.Of(ms[i]), ms[i])
    decreases |ms|
  {
    if ms != [] {
      StepSucceedsIff(acc, sep, typeIds, dense, f, ms[0]);
      var rest := ms[1..];
      assert forall i :: 1 <= i < |ms| ==> ms[i] == rest[i - 1];
      match Step(acc, sep, typeIds, dense, f, ms[0])
      case Err(_) =>
      case Ok(next) =>
        StepsSucceedIff(next, sep, typeIds, dense, f, rest);
        assert forall i :: 0 <= i < |rest| ==> rest[i] == ms[i + 1];
    }
  }

  /** A successful loop appends each modality's spans, in list order. */
  lemma {:induction false} StepsAppend<T, V>(acc: Assembled<T>, sep: T, typeIds: map<Modal, int>,
                                            dense: (Modal, V) -> T, f: Features<V>, ms: seq<Modal>)
    requires Steps(acc, sep, typeIds, dense, f, ms).failure.None?
    ensures var a := Steps(acc, sep, typeIds, dense, f, ms).reached;
            a.embeddings == acc.embeddings + EmbParts(sep, dense, f, ms) &&
            a.mask == acc.mask + MaskParts(f, ms) &&
            a.segmentIds == acc.segmentIds + SegParts(f, ms) &&
            (acc.modalTypeIds.None? ==> a.modalTypeIds.None?) &&
            (acc.modalTypeIds.Some? ==>
               a.modalTypeIds == Some(acc.modalTypeIds.value + TypeParts(typeIds, f, ms)))
    decreases |ms|
  {
    if ms == [] {
      assert acc.embeddings + [] == acc.embeddings;
      assert acc.mask + [] == acc.mask;
      assert acc.segmentIds + [] == acc.segmentIds;
      if acc.modalTypeIds.Some? {
        assert acc.modalTypeIds.value + [] == acc.modalTypeIds.value;
      }
    } else {
      var step := Step(acc, sep, typeIds, dense, f, ms[0]);
      assert step.Ok?;
      var next := step.value;
      assert Steps(acc, sep, typeIds, dense, f, ms) == Steps(next, sep, typeIds, dense, f, ms[1..]);
      StepAppends(acc, sep, typeIds, dense, f, ms[0]);
      StepsAppend(next, sep, typeIds, dense, f, ms[1..]);
      var mf := f.Of(ms[0]);
      AppendAssoc(acc.embeddings, EmbPart(sep, dense, mf, ms[0]), EmbParts(sep, dense, f, ms[1..]));
      AppendAssoc(acc.mask, EdgePart(mf, mf.mask), MaskParts(f, ms[1..]));
      AppendAssoc(acc.segmentIds, EdgePart(mf, mf.segmentIds), SegParts(f, ms[1..]));
      if acc.modalTypeIds.Some? {
        AppendAssoc(acc.modalTypeIds.value, TypePart(typeIds, mf, ms[0]), TypeParts(typeIds, f, ms[1..]));
      }
    }
  }

  /**
   * With consistent shapes, a successful loop lengthens all four rows by the
   * same amount: every present modality of length L adds L + 2 positions.
   */
  lemma {:induction false} StepsLengths<T, V>(acc: Assembled<T>, sep: T, typeIds: map<Modal, int>,
                                             dense: (Modal, V) -> T, f: Features<V>, ms: seq<Modal>)
    requires Steps(acc, sep, typeIds, dense, f, ms).failure.None?
    requires forall i :: 0 <= i < |ms| ==> Consistent(f.Of(ms[i]))
    ensures var a := Steps(acc, sep, typeIds, dense, f, ms).reached;
            |a.embeddings| == |acc.embeddings| + Extras(f, ms) &&
            |a.mask| == |acc.mask| + Extras(f, ms) &&
            |a.segmentIds| == |acc.segmentIds| + Extras(f, ms) &&
            (acc.modalTypeIds.Some? ==>
               |a.modalTypeIds.value| == |acc.modalTypeIds.value| + Extras(f, ms))
    decreases |ms|
  {
    if ms != [] {
      var step := Step(acc, sep, typeIds, dense, f, ms[0]);
      assert step.Ok?;
      var next := step.value;
      assert Steps(acc, sep, typeIds, dense, f, ms) == Steps(next, sep, typeIds, dense, f, ms[1..]);
      assert Consistent(f.Of(ms[0]));
      StepAppends(acc, sep, typeIds, dense, f, ms[0]);
      assert forall i :: 0 <= i < |ms[1..]| ==> ms[1..][i] == ms[i + 1];
      StepsLengths(next, sep, typeIds, dense, f, ms[1..]);
    }
  }

  /**
   * The loop only appends, whether it completes or stops at a failing
   * modality: what it started from is a prefix of every row it reaches,
   * `embedding_output` included.
   */
  lemma {:induction false} StepsExtend<T, V>(acc: Assembled<T>, sep: T, typeIds: map<Modal, int>,
                                            dense: (Modal, V) -> T, f: Features<V>, ms: seq<Modal>)
    ensures var a := Steps(acc, sep, typeIds, dense, f, ms).reached;
            acc.embeddings <= a.embeddings && acc.mask <= a.mask && acc.segmentIds <= a.segmentIds &&
            a.modalTypeIds.Some? == acc.modalTypeIds.Some? &&
            (acc.modalTypeIds.Some? ==> acc.modalTypeIds.value <= a.modalTypeIds.value)
    decreases |ms|
  {
    if ms != [] {
      StepsFirst(acc, sep, typeIds, dense, f, ms);
      var step := Step(acc, sep, typeIds, dense, f, ms[0]);
      if step.Ok? {
        var next := step.value;
        StepAppends(acc, sep, typeIds, dense, f, ms[0]);
        StepsExtend(next, sep, typeIds, dense, f, ms[1..]);
        var a := Steps(next, sep, typeIds, dense, f, ms[1..]).reached;
        PrefixTrans(acc.embeddings, next.embeddings, a.embeddings);
        PrefixTrans(acc.mask, next.mask, a.mask);
        PrefixTrans(acc.segmentIds, next.segmentIds, a.segmentIds);
        if acc.modalTypeIds.Some? {
          PrefixTrans(acc.modalTypeIds.value, next.modalTypeIds.value, a.modalTypeIds.value);
        }
      }
    }
  }

  lemma PrefixTrans<X>(a: seq<X>, b: seq<X>, c: seq<X>)
    requires a <= b && b <= c
    ensures a <= c
  {
    assert c[..|a|] == b[..|a|];
  }

  /** With no '{modal}_input' key at all, the loop changes nothing. */
  lemma {:induction false} NoModalities<T, V>(acc: Assembled<T>, sep: T, typeIds: map<Modal, int>,
                                             dense: (Modal, V) -> T, f: Features<V>, ms: seq<Modal>)
    requires forall i :: 0 <= i < |ms| ==> f.Of(ms[i]).input.Absent?
    ensures Steps(acc, sep, typeIds, dense, f, ms) == Run(acc, None)
    decreases |ms|
  {
    if ms != [] {
      assert f.Of(ms[0]).input.Absent?;
      assert forall i :: 0 <= i < |ms[1..]| ==> ms[1..][i] == ms[i + 1];
      NoModalities(acc, sep, typeIds, dense, f, ms[1..]);
    }
  }

  // ---------------------------------------------------------------------
  // The whole assembly, over `modal_name_list` = [image, others]

  /**
   * A successful assembly is the text followed by the image span (if its
   * input key is present) and then the others span (if its key is
   * present), in every one of the four rows.
   */
  lemma AssembleLayout<T, V>(cfg: Config, table: int -> T, dense: (Modal, V) -> T, f: Features<V>)
    requires Assemble(cfg, table, dense, f).Ok?
    ensures ReadText(f).Ok? && |ReadText(f).value.ids| > 0
    ensures var t := ReadText(f).value; var a := Assemble(cfg, table, dense, f).value;
            var sep := SepOf(table, t.ids);
            a.embeddings == Gather(table, t.ids) + EmbPart(sep, dense, f.image, Image)
                                                 + EmbPart(sep, dense, f.others, Others) &&
            a.mask == t.mask + EdgePart(f.image, f.image.mask) + EdgePart(f.others, f.others.mask) &&
            a.segmentIds == t.segmentIds + EdgePart(f.image, f.image.segmentIds)
                                         + EdgePart(f.others, f.others.segmentIds) &&
            (cfg.enableModalType ==>
               a.modalTypeIds == Some(Fill(|t.ids|, 0) + TypePart(cfg.modalTypeId, f.image, Image)
                                                       + TypePart(cfg.modalTypeId, f.others, Others))) &&
            (!cfg.enableModalType ==> a.modalTypeIds.None?)
  {
    var t := ReadText(f).value;
    var acc := Start(cfg, table, t);
    var sep := SepOf(table, t.ids);
    AssembleIsLoop(cfg, table, dense, f);
    var a := Assemble(cfg, table, dense, f).value;
    StepsAppend(acc, sep, cfg.modalTypeId, dense, f, ModalNames);
    PartsOfModalNames(sep, cfg.modalTypeId, dense, f);
    assert a.embeddings == acc.embeddings + EmbParts(sep, dense, f, ModalNames);
    AppendAssoc(Gather(table, t.ids), EmbPart(sep, dense, f.image, Image), EmbPart(sep, dense, f.others, Others));
    AppendAssoc(t.mask, EdgePart(f.image, f.image.mask), EdgePart(f.others, f.others.mask));
    AppendAssoc(t.segmentIds, EdgePart(f.image, f.image.segmentIds), EdgePart(f.others, f.others.segmentIds));
    if cfg.enableModalType {
      AppendAssoc(Fill(|t.ids|, 0), TypePart(cfg.modalTypeId, f.image, Image), TypePart(cfg.modalTypeId, f.others, Others));
    }
  }

  /** A successful assembly is a successful run of the loop from the text tensors. */
  lemma AssembleIsLoop<T, V>(cfg: Config, table: int -> T, dense: (Modal, V) -> T, f: Features<V>)
    requires Assemble(cfg, table, dense, f).Ok?
    ensures ReadText(f).Ok? && |ReadText(f).value.ids| > 0
    ensures var t := ReadText(f).value;
            var run := Steps(Start(cfg, table, t), SepOf(table, t.ids), cfg.modalTypeId, dense, f, ModalNames);
            run.failure.None? && Assemble(cfg, table, dense, f).value == run.reached
  {
    var t := ReadText(f).value;
    var acc := Start(cfg, table, t);
    assert acc.embeddings[|t.ids| - 1] == SepOf(table, t.ids);
  }

  /** The parts over `modal_name_list`: image first, then others. */
  lemma PartsOfModalNames<T, V>(sep: T, typeIds: map<Modal, int>, dense: (Modal, V) -> T, f: Features<V>)
    ensures EmbParts(sep, dense, f, ModalNames) ==
            EmbPart(sep, dense, f.image, Image) + EmbPart(sep, dense, f.others, Others)
    ensures MaskParts(f, ModalNames) == EdgePart(f.image, f.image.mask) + EdgePart(f.others, f.others.mask)
    ensures SegParts(f, ModalNames) ==
            EdgePart(f.image, f.image.segmentIds) + EdgePart(f.others, f.others.segmentIds)
    ensures TypeParts(typeIds, f, ModalNames) ==
            TypePart(typeIds, f.image, Image) + TypePart(typeIds, f.others, Others)
    ensures Extras(f, ModalNames) == Extra(f.image) + Extra(f.others)
  {
    var last: seq<Modal> := [Others];
    assert ModalNames[1..] == last;
    assert last[1..] == [];
    assert EmbParts(sep, dense, f, last) == EmbPart(sep, dense, f.others, Others) + [];
    assert MaskParts(f, last) == EdgePart(f.others, f.others.mask) + [];
    assert SegParts(f, last) == EdgePart(f.others, f.others.segmentIds) + [];
    assert TypeParts(typeIds, f, last) == TypePart(typeIds, f.others, Others) + [];
  }

  /**
   * With neither '{modal}_input' key present, the assembly is the text alone:
   * the (defaulted) mask and segment ids and the gathered embeddings.
   */
  lemma TextOnly<T, V>(cfg: Config, table: int -> T, dense: (Modal, V) -> T, f: Features<V>)
    requires ReadText(f).Ok? && |ReadText(f).value.ids| > 0
    requires f.image.input.Absent? && f.others.input.Absent?
    ensures Assemble(cfg, table, dense, f) == Ok(Start(cfg, table, ReadText(f).value))
    ensures var a := Assemble(cfg, table, dense, f).value;
            |a.embeddings| == |f.inputIds.value| &&
            a.embeddings == Gather(table, f.inputIds.value) &&
            a.mask == ReadText(f).value.mask && a.segmentIds == ReadText(f).value.segmentIds
  {
    var t := ReadText(f).value;
    var acc := Start(cfg, table, t);
    NoModalities(acc, SepOf(table, t.ids), cfg.modalTypeId, dense, f, ModalNames);
  }

  /**
   * With consistent shapes, all four assembled rows have length
   * text length + sum over present modalities of (length + 2), and the
   * modal-type embedding can be added (no shape mismatch).
   */
  lemma AssembleLengths<T, V>(cfg: Config, table: int -> T, dense: (Modal, V) -> T,
                              typeEmbed: (T, int) -> T, training: bool, f: Features<V>)
    requires Assemble(cfg, table, dense, f).Ok?
    requires TextConsistent(f) && Consistent(f.image) && Consistent(f.others)
    ensures var a := Assemble(cfg, table, dense, f).value;
            var n := |f.inputIds.value| + Extra(f.image) + Extra(f.others);
            |a.embeddings| == n && |a.mask| == n && |a.segmentIds| == n &&
            (a.modalTypeIds.Some? ==> |a.modalTypeIds.value| == n) &&
            ArgsOf(a, typeEmbed, training).Ok?
  {
    AssembleIsLoop(cfg, table, dense, f);
    TextLengths(f);
    var t := ReadText(f).value;
    StepsLengths(Start(cfg, table, t), SepOf(table, t.ids), cfg.modalTypeId, dense, f, ModalNames);
    PartsOfModalNames(SepOf(table, t.ids), cfg.modalTypeId, dense, f);
  }

  lemma TextLengths<V>(f: Features<V>)
    requires ReadText(f).Ok? && TextConsistent(f)
    ensures |ReadText(f).value.mask| == |f.inputIds.value|
    ensures |ReadText(f).value.segmentIds| == |f.inputIds.value|
  {
  }

  /**
   * Assembly only appends: the text embeddings, mask and segment ids are a
   * prefix of the result, and with tagging the text positions carry id 0.
   */
  lemma TextPrefix<T, V>(cfg: Config, table: int -> T, dense: (Modal, V) -> T, f: Features<V>)
    requires Assemble(cfg, table, dense, f).Ok?
    ensures var a := Assemble(cfg, table, dense, f).value; var t := ReadText(f).value;
            |t.ids| <= |a.embeddings| && a.embeddings[..|t.ids|] == Gather(table, t.ids) &&
            |t.mask| <= |a.mask| && a.mask[..|t.mask|] == t.mask &&
            |t.segmentIds| <= |a.segmentIds| && a.segmentIds[..|t.segmentIds|] == t.segmentIds &&
            (cfg.enableModalType ==>
               |t.ids| <= |a.modalTypeIds.value| &&
               a.modalTypeIds.value[..|t.ids|] == Fill(|t.ids|, 0))
  {
    AssembleLayout(cfg, table, dense, f);
    var t := ReadText(f).value;
    var sep := SepOf(table, t.ids);
    Front(Gather(table, t.ids), EmbPart(sep, dense, f.image, Image), EmbPart(sep, dense, f.others, Others));
    Front(t.mask, EdgePart(f.image, f.image.mask), EdgePart(f.others, f.others.mask));
    Front(t.segmentIds, EdgePart(f.image, f.image.segmentIds), EdgePart(f.others, f.others.segmentIds));
    if cfg.enableModalType {
      Front(Fill(|t.ids|, 0), TypePart(cfg.modalTypeId, f.image, Image), TypePart(cfg.modalTypeId, f.others, Others));
    }
  }

  /** In a successful assembly both modalities admitted their step. */
  lemma AssembleAdmits<T, V>(cfg: Config, table: int -> T, dense: (Modal, V) -> T, f: Features<V>)
    requires Assemble(cfg, table, dense, f).Ok?
    ensures Admits(cfg.modalTypeId, cfg.enableModalType, f.image, Image)
    ensures Admits(cfg.modalTypeId, cfg.enableModalType, f.others, Others)
  {
    AssembleIsLoop(cfg, table, dense, f);
    var t := ReadText(f).value;
    StepsSucceedIff(Start(cfg, table, t), SepOf(table, t.ids), cfg.modalTypeId, dense, f, ModalNames);
    assert ModalNames[0] == Image && ModalNames[1] == Others;
  }

  /**
   * The whole pass succeeds exactly when the text reads, its token row is
   * non-empty, and both image and others admit their step.
   */
  lemma AssembleSucceedsIff<T, V>(cfg: Config, table: int -> T, dense: (Modal, V) -> T, f: Features<V>)
    ensures Assemble(cfg, table, dense, f).Ok? <==>
            ReadText(f).Ok? && |ReadText(f).value.ids| > 0 &&
            Admits(cfg.modalTypeId, cfg.enableModalType, f.image, Image) &&
            Admits(cfg.modalTypeId, cfg.enableModalType, f.others, Others)
  {
    if ReadText(f).Ok? && |ReadText(f).value.ids| > 0 {
      TraceIsLoop(cfg, table, dense, f);
      var t := ReadText(f).value;
      StepsSucceedIff(Start(cfg, table, t), SepOf(table, t.ids), cfg.modalTypeId, dense, f, ModalNames);
      assert ModalNames[0] == Image && ModalNames[1] == Others;
    }
  }

  /**
   * The image span, right after the text: the [SEP] embedding, the projected
   * image inputs in order, the [SEP] embedding again; and in the segment and
   * mask rows the image's own row bracketed by its first value.
   */
  lemma ImageSpan<T, V>(cfg: Config, table: int -> T, dense: (Modal, V) -> T, f: Features<V>)
    requires Assemble(cfg, table, dense, f).Ok?
    requires TextConsistent(f) && Consistent(f.image)
    requires f.image.input.Given?
    ensures var a := Assemble(cfg, table, dense, f).value; var ids := f.inputIds.value;
            var xs := f.image.input.value; var s := f.image.segmentIds.value;
            var k := f.image.mask.value; var o := |ids|; var n := |xs| + 2;
            |ids| > 0 && |xs| > 0 &&
            o + n <= |a.embeddings| && o + n <= |a.segmentIds| && o + n <= |a.mask| &&
            a.embeddings[o..o + n] == Bracket(SepOf(table, ids), Project(dense, Image, xs)) &&
            a.segmentIds[o..o + n] == Bracket(s[0], s) &&
            a.mask[o..o + n] == Bracket(k[0], k)
  {
    ImageEmbeddings(cfg, table, dense, f);
    ImageEdges(cfg, table, dense, f);
  }

  lemma ImageEmbeddings<T, V>(cfg: Config, table: int -> T, dense: (Modal, V) -> T, f: Features<V>)
    requires Assemble(cfg, table, dense, f).Ok?
    requires f.image.input.Given?
    ensures var a := Assemble(cfg, table, dense, f).value; var ids := f.inputIds.value;
            var xs := f.image.input.value; var o := |ids|; var n := |xs| + 2;
            |ids| > 0 && o + n <= |a.embeddings| &&
            a.embeddings[o..o + n] == Bracket(SepOf(table, ids), Project(dense, Image, xs))
  {
    AssembleLayout(cfg, table, dense, f);
    var t := ReadText(f).value;
    var sep := SepOf(table, t.ids);
    Middle(Gather(table, t.ids), EmbPart(sep, dense, f.image, Image), EmbPart(sep, dense, f.others, Others));
  }

  lemma ImageEdges<T, V>(cfg: Config, table: int -> T, dense: (Modal, V) -> T, f: Features<V>)
    requires Assemble(cfg, table, dense, f).Ok?
    requires TextConsistent(f) && Consistent(f.image)
    requires f.image.input.Given?
    ensures var a := Assemble(cfg, table, dense, f).value; var ids := f.inputIds.value;
            var xs := f.image.input.value; var s := f.image.segmentIds.value;
            var k := f.image.mask.value; var o := |ids|; var n := |xs| + 2;
            |xs| > 0 && o + n <= |a.segmentIds| && o + n <= |a.mask| &&
            a.segmentIds[o..o + n] == Bracket(s[0], s) &&
            a.mask[o..o + n] == Bracket(k[0], k)
  {
    AssembleLayout(cfg, table, dense, f);
    AssembleAdmits(cfg, table, dense, f);
    TextLengths(f);
    var t := ReadText(f).value;
    var s, k := f.image.segmentIds.value, f.image.mask.value;
    assert EdgePart(f.image, f.image.segmentIds) == Bracket(s[0], s);
    assert EdgePart(f.image, f.image.mask) == Bracket(k[0], k);
    assert |t.segmentIds| == |t.mask| == |f.inputIds.value|;
    assert |Bracket(s[0], s)| == |Bracket(k[0], k)| == |f.image.input.value| + 2;
    Middle(t.segmentIds, Bracket(s[0], s), EdgePart(f.others, f.others.segmentIds));
    Middle(t.mask, Bracket(k[0], k), EdgePart(f.others, f.others.mask));
  }

  /**
   * The others span, right after the text and the image span (if any), with
   * the same layout: [SEP], projected inputs, [SEP]; first value, row, first value.
   */
  lemma OthersSpan<T, V>(cfg: Config, table: int -> T, dense: (Modal, V) -> T, f: Features<V>)
    requires Assemble(cfg, table, dense, f).Ok?
    requires TextConsistent(f) && Consistent(f.image) && Consistent(f.others)
    requires f.others.input.Given?
    ensures var a := Assemble(cfg, table, dense, f).value; var ids := f.inputIds.value;
            var xs := f.others.input.value; var s := f.others.segmentIds.value;
            var k := f.others.mask.value; var o := |ids| + Extra(f.image); var n := |xs| + 2;
            |ids| > 0 && |xs| > 0 &&
            o + n == |a.embeddings| && o + n == |a.segmentIds| && o + n == |a.mask| &&
            a.embeddings[o..] == Bracket(SepOf(table, ids), Project(dense, Others, xs)) &&
            a.segmentIds[o..] == Bracket(s[0], s) &&
            a.mask[o..] == Bracket(k[0], k)
  {
    OthersEmbeddings(cfg, table, dense, f);
    OthersEdges(cfg, table, dense, f);
  }

  lemma OthersEmbeddings<T, V>(cfg: Config, table: int -> T, dense: (Modal, V) -> T, f: Features<V>)
    requires Assemble(cfg, table, dense, f).Ok?
    requires f.others.input.Given?
    ensures var a := Assemble(cfg, table, dense, f).value; var ids := f.inputIds.value;
            var xs := f.others.input.value; var o := |ids| + Extra(f.image);
            |ids| > 0 && o + |xs| + 2 == |a.embeddings| &&
            a.embeddings[o..] == Bracket(SepOf(table, ids), Project(dense, Others, xs))
  {
    AssembleLayout(cfg, table, dense, f);
    var t := ReadText(f).value;
    var sep := SepOf(table, t.ids);
    Back(Gather(table, t.ids) + EmbPart(sep, dense, f.image, Image), EmbPart(sep, dense, f.others, Others));
  }

  lemma OthersEdges<T, V>(cfg: Config, table: int -> T, dense: (Modal, V) -> T, f: Features<V>)
    requires Assemble(cfg, table, dense, f).Ok?
    requires TextConsistent(f) && Consistent(f.image) && Consistent(f.others)
    requires f.others.input.Given?
    ensures var a := Assemble(cfg, table, dense, f).value; var ids := f.inputIds.value;
            var xs := f.others.input.value; var s := f.others.segmentIds.value;
            var k := f.others.mask.value; var o := |ids| + Extra(f.image); var n := |xs| + 2;
            |xs| > 0 && o + n == |a.segmentIds| && o + n == |a.mask| &&
            a.segmentIds[o..] == Bracket(s[0], s) &&
            a.mask[o..] == Bracket(k[0], k)
  {
    AssembleLayout(cfg, table, dense, f);
    AssembleAdmits(cfg, table, dense, f);
    TextLengths(f);
    var t := ReadText(f).value;
    var s, k := f.others.segmentIds.value, f.others.mask.value;
    assert EdgePart(f.others, f.others.segmentIds) == Bracket(s[0], s);
    assert EdgePart(f.others, f.others.mask) == Bracket(k[0], k);
    assert |EdgePart(f.image, f.image.segmentIds)| == Extra(f.image);
    assert |EdgePart(f.image, f.image.mask)| == Extra(f.image);
    Back(t.segmentIds + EdgePart(f.image, f.image.segmentIds), Bracket(s[0], s));
    Back(t.mask + EdgePart(f.image, f.image.mask), Bracket(k[0], k));
  }

  /**
   * With tagging on and consistent shapes, each present modality's whole
   * bracketed span, both [SEP] positions included, carries its reserved id.
   */
  lemma ModalTypeSpans<T, V>(cfg: Config, table: int -> T, dense: (Modal, V) -> T, f: Features<V>)
    requires Assemble(cfg, table, dense, f).Ok?
    requires cfg.enableModalType
    requires Consistent(f.image) && Consistent(f.others)
    ensures var types := Assemble(cfg, table, dense, f).value.modalTypeIds.value;
            var o := |f.inputIds.value|; var ni := Extra(f.image); var no := Extra(f.others);
            o + ni + no == |types| &&
            (f.image.input.Given? ==>
               Image in cfg.modalTypeId && types[o..o + ni] == Fill(ni, cfg.modalTypeId[Image])) &&
            (f.others.input.Given? ==>
               Others in cfg.modalTypeId && types[o + ni..] == Fill(no, cfg.modalTypeId[Others]))
  {
    AssembleLayout(cfg, table, dense, f);
    AssembleAdmits(cfg, table, dense, f);
    var t := ReadText(f).value;
    var ti, to := TypePart(cfg.modalTypeId, f.image, Image), TypePart(cfg.modalTypeId, f.others, Others);
    Middle(Fill(|t.ids|, 0), ti, to);
    Back(Fill(|t.ids|, 0) + ti, to);
  }

  lemma Middle<X>(head: seq<X>, mid: seq<X>, tail: seq<X>)
    ensures |head| + |mid| <= |head + mid + tail|
    ensures (head + mid + tail)[|head|..|head| + |mid|] == mid
  {
  }

  lemma Front<X>(head: seq<X>, mid: seq<X>, tail: seq<X>)
    ensures (head + mid + tail)[..|head|] == head
  {
  }

  lemma Back<X>(head: seq<X>, tail: seq<X>)
    ensures (head + tail)[|head|..] == tail
  {
  }

  // ---------------------------------------------------------------------
  // Concrete rows

  /** Text [101, 7, 8, 9, 102] with mask and segment ids `None` and no modality. */
  lemma TextOnlyExample<T, V>(cfg: Config, table: int -> T, dense: (Modal, V) -> T)
    ensures var none := ModalFeatures(Absent, Absent, Absent);
            var f: Features<V> := Features(Given([101, 7, 8, 9, 102]), Null, Null, none, none);
            var a := Assemble(cfg, table, dense, f);
            a.Ok? && a.value.mask == [1, 1, 1, 1, 1] && a.value.segmentIds == [0, 0, 0, 0, 0] &&
            |a.value.embeddings| == 5
  {
    var none := ModalFeatures(Absent, Absent, Absent);
    var f: Features<V> := Features(Given([101, 7, 8, 9, 102]), Null, Null, none, none);
    TextOnly(cfg, table, dense, f);
  }

  /** The example below: the same text with tagging on (image id 1, others id 2). */
  function ExampleConfig(): Config
  {
    Config(true, map[Image := 1, Others := 2])
  }

  /** The same text with a three-position image input and no others input. */
  function ImageFeatures<V>(x0: V, x1: V, x2: V): Features<V>
  {
    Features(Given([101, 7, 8, 9, 102]), Null, Null,
             ModalFeatures(Given([x0, x1, x2]), Given([0, 0, 0]), Given([1, 1, 1])),
             ModalFeatures(Absent, Absent, Absent))
  }

  /** Assembling that example gives ten positions, the last five tagged 1. */
  lemma ImageExampleTypes<T, V>(table: int -> T, dense: (Modal, V) -> T, x0: V, x1: V, x2: V)
    ensures var a := Assemble(ExampleConfig(), table, dense, ImageFeatures(x0, x1, x2));
            a.Ok? && |a.value.embeddings| == 10 &&
            a.value.modalTypeIds == Some([0, 0, 0, 0, 0, 1, 1, 1, 1, 1])
  {
    var cfg, f := ExampleConfig(), ImageFeatures(x0, x1, x2);
    StepsSucceedIff(Start(cfg, table, ReadText(f).value), table(102), cfg.modalTypeId, dense, f, ModalNames);
    assert ModalNames[0] == Image && ModalNames[1] == Others;
    assert Assemble(cfg, table, dense, f).Ok?;
    AssembleLayout(cfg, table, dense, f);
    var a := Assemble(cfg, table, dense, f).value;
    var sep := SepOf(table, [101, 7, 8, 9, 102]);
    assert |EmbPart(sep, dense, f.image, Image)| == 5;
    assert EmbPart(sep, dense, f.others, Others) == [];
    assert TypePart(cfg.modalTypeId, f.image, Image) == Fill(5, 1) == [1, 1, 1, 1, 1];
    assert TypePart(cfg.modalTypeId, f.others, Others) == [];
    assert Fill(5, 0) == [0, 0, 0, 0, 0];
    assert a.modalTypeIds.value == [0, 0, 0, 0, 0] + [1, 1, 1, 1, 1] + [];
    assert a.modalTypeIds.value == [0, 0, 0, 0, 0, 1, 1, 1, 1, 1];
    assert |a.embeddings| == 10;
  }

  /** ... and its image span is [SEP], the three projected inputs, [SEP]. */
  lemma ImageExample<T, V>(table: int -> T, dense: (Modal, V) -> T, x0: V, x1: V, x2: V)
    ensures var a := Assemble(ExampleConfig(), table, dense, ImageFeatures(x0, x1, x2));
            a.Ok? && |a.value.embeddings| == 10 &&
            a.value.embeddings[5..] ==
              [table(102), dense(Image, x0), dense(Image, x1), dense(Image, x2), table(102)]
  {
    var cfg, f := ExampleConfig(), ImageFeatures(x0, x1, x2);
    ImageExampleTypes(table, dense, x0, x1, x2);
    ImageEmbeddings(cfg, table, dense, f);
    assert SepOf(table, [101, 7, 8, 9, 102]) == table(102);
  }
}
