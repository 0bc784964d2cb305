/**
 * The feature bundle handed to `MultiModalBertModel.call` (one batch row),
 * the keys it is read by and the ways reading it can fail.
 */
module Features {

  datatype Option<+X> = None | Some(value: X)

  /** The declared non-text modalities, in the fixed processing order of `modal_name_list`. */
  datatype Modal = Image | Others

  const ModalNames: seq<Modal> := [Image, Others]

  /** The dictionary keys the forward pass reads. */
  datatype Key =
    | InputIds
    | InputMask
    | SegmentIds
    | ModalInput(modal: Modal)        // '{modal}_input'
    | ModalSegmentIds(modal: Modal)   // '{modal}_segment_ids'
    | ModalMask(modal: Modal)         // '{modal}_mask'

  /**
   * One dictionary slot: the key is missing, the key maps to `None`,
   * or the key maps to a tensor row. The source tells the first two apart.
   */
  datatype Entry<+X> = Absent | Null | Given(value: X)

  /** The triple of tensors that belongs to one modality. */
  datatype ModalFeatures<+V> = ModalFeatures(
    input: Entry<seq<V>>,
    segmentIds: Entry<seq<int>>,
    mask: Entry<seq<int>>)

  datatype Features<+V> = Features(
    inputIds: Entry<seq<int>>,
    inputMask: Entry<seq<int>>,
    segmentIds: Entry<seq<int>>,
    image: ModalFeatures<V>,
    others: ModalFeatures<V>)
  {
    /** The entries stored under the '{modal}_…' keys. */
    function Of(m: Modal): ModalFeatures<V>
    {
      match m
      case Image => image
      case Others => others
    }
  }

  /** Why a forward pass stops before reaching the backbone. */
  datatype Error =
    | MissingKey(key: Key)       // subscripting a key that is not in the dictionary
    | NoneValue(key: Key)        // using a `None` where a tensor is needed
    | EmptyAxis(key: Key)        // `[:, -1]` or `[:, 0]` on an empty sequence axis
    | MissingTypeId(modal: Modal) // `params.modal_type_id[modal]` without that entry
    | ShapeMismatch              // adding modal-type embeddings of another length

  datatype Result<+R> = Ok(value: R) | Err(error: Error)
}
