/**
 * What the abstract `BaseDialogNode` gives both dialog node kinds: the reserved
 * input values, the option and output-knob records, the layout bookkeeping the
 * two subclasses share, and the resolution of an input value across an output.
 *
 * The node-graph plugin is not part of this model. A node's `Outputs` list is a
 * sequence of knobs, each connected to nothing, to a dialog node or to a node of
 * some other kind; creating an output appends a knob and deleting a knob removes it
 * from that sequence.
 */
module DialogNode {
  import opened Wrappers

  /** Identity of the node found across a connection. */
  type NodeId = nat

  /** `EDialogInputValue`: the two input values reserved beside option indices. */
  datatype EDialogInputValue = Next | Back {
    /** The integer the enum member stands for. */
    function Code(): (r: int)
      ensures r < 0
      ensures r == -2 <==> this == Next
      ensures r == -1 <==> this == Back
    {
      match this
      case Next => -2
      case Back => -1
    }
  }

  /** The case label of `Input`'s switch that an integer matches, if any. */
  function Classify(inputValue: int): (r: Option<EDialogInputValue>)
    ensures r.Some? ==> r.value.Code() == inputValue
    ensures inputValue >= 0 ==> r == None
  {
    if inputValue == -2 then Some(Next)
    else if inputValue == -1 then Some(Back)
    else None
  }

  /** Every reserved value is recognised as itself, and never as an option index. */
  lemma ClassifyCode(v: EDialogInputValue)
    ensures Classify(v.Code()) == Some(v)
    ensures Next.Code() != Back.Code()
  {
  }

  /** `DataHolderForOption`: the text shown for an option and the output it created. */
  datatype OptionData = OptionData(display: string, outputIndex: int)

  /** What a knob is connected to: nothing, a dialog node, or a node of some other kind. */
  datatype Connection = Unconnected | ToDialogNode(node: NodeId) | ToOtherNode

  /** An output knob: its position along the node's right side and its connection. */
  datatype Knob = Knob(sidePosition: int, link: Connection) {
    /**
     * `GetNodeAcrossConnection() as BaseDialogNode`: the dialog node across the
     * connection, or null when there is no connection or the node is of another kind.
     */
    function DialogNodeAcross(): (r: Option<NodeId>)
      ensures r.Some? <==> link.ToDialogNode?
      ensures r.Some? ==> r.value == link.node
    {
      match link
      case ToDialogNode(n) => Some(n)
      case _ => None
    }
  }

  /**
   * The outcome of `Input`: the dialog node across the chosen output (`None`,
   * C#'s `null`, for an unconnected output or a node of another kind), or the
   * `ArgumentOutOfRangeException` that indexing `Outputs` or `_options` out of
   * range throws.
   */
  datatype InputResult = Resolved(next: Option<NodeId>) | OutOfRange

  /** The bookkeeping a dialog node keeps while it adds and removes options. */
  ghost predicate Bookkept(options: seq<OptionData>, outputs: seq<Knob>, height: int,
                           startValue: int, sizeValue: int, baseHeight: int)
  {
    && |outputs| == |options|
    && (forall i :: 0 <= i < |options| ==> options[i].outputIndex == i)
    && (forall i :: 0 <= i < |outputs| ==> outputs[i].sidePosition == startValue + i * sizeValue)
    && height == baseHeight + |options| * sizeValue
  }

  /** The node across `Outputs[index]`. */
  function ReadOutput(outputs: seq<Knob>, index: int): InputResult {
    if 0 <= index < |outputs| then Resolved(outputs[index].DialogNodeAcross()) else OutOfRange
  }

  /** The body both subclasses give `Input(int)`. */
  function ResolveInput(options: seq<OptionData>, outputs: seq<Knob>, inputValue: int): InputResult {
    match Classify(inputValue)
    case Some(Next) => ReadOutput(outputs, 1)
    case Some(Back) => ReadOutput(outputs, 0)
    case None =>
      if 0 <= inputValue < |options| then ReadOutput(outputs, options[inputValue].outputIndex)
      else OutOfRange
  }

  /** `AllowRecursion`: a dialog node may be connected back to a node met earlier. */
  function AllowRecursion(): (allowed: bool)
    ensures allowed
  {
    true
  }
}
