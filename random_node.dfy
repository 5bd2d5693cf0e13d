/**
 * `RandomOutputNode`: a node with a variable number of outputs and no text of its
 * own. Its options carry an empty display text; nothing in the node chooses one
 * at random.
 */
module RandomNode {
  import opened Wrappers
  import opened Lists
  import opened DialogNode

  class RandomOutputNode {
    static const StartValue: int := 36
    static const SizeValue: int := 22
    static const BaseHeight: int := 84

    var options: seq<OptionData>
    var outputs: seq<Knob>
    var height: int
    var name: string

    /** Every option of a random node shows the empty text. */
    static ghost predicate Blank(opts: seq<OptionData>) {
      forall i :: 0 <= i < |opts| ==> opts[i].display == ""
    }

    /** Object invariant: at least one option, the layout bookkeeping, blank texts. */
    ghost predicate Valid()
      reads this
    {
      && |options| >= 1
      && Bookkept(options, outputs, height, StartValue, SizeValue, BaseHeight)
      && Blank(options)
    }

    /** `Create`: a node holding one blank option and its output. */
    constructor Create()
      ensures Valid()
      ensures options == [OptionData("", 0)]
      ensures outputs == [Knob(StartValue, Unconnected)]
      ensures height == BaseHeight + SizeValue
      ensures name == "Random Node"
    {
      height := BaseHeight;
      name := "Random Node";
      outputs := [];
      options := [];
      new;
      AddNewOption();
    }

    /** `AddNewOption`: creates an output, then records its index in a new blank option. */
    method AddNewOption()
      requires Bookkept(options, outputs, height, StartValue, SizeValue, BaseHeight) && Blank(options)
      modifies this`options, this`outputs, this`height
      ensures Valid()
      ensures outputs == old(outputs) + [Knob(StartValue + |old(options)| * SizeValue, Unconnected)]
      ensures options == old(options) + [OptionData("", |outputs| - 1)]
      ensures height == old(height) + SizeValue
    {
      var option := OptionData("", 0);
      outputs := outputs + [Knob(StartValue + |options| * SizeValue, Unconnected)];
      option := option.(outputIndex := |outputs| - 1);
      height := height + SizeValue;
      options := options + [option];
    }

    /** `RemoveLastOption`: refused when one option is left; otherwise drops the last option and its output. */
    method RemoveLastOption()
      requires Valid()
      modifies this`options, this`outputs, this`height
      ensures Valid()
      ensures |old(options)| == 1 ==> options == old(options) && outputs == old(outputs) && height == old(height)
      ensures |old(options)| > 1 ==>
        && options == old(options)[..|old(options)| - 1]
        && outputs == old(outputs)[..|old(outputs)| - 1]
        && height == old(height) - SizeValue
    {
      if |options| > 1 {
        var last := |options| - 1;
        var option := options[last];
        assert option !in options[..last] by {
          forall i | 0 <= i < last ensures options[..last][i] != option {
            assert options[..last][i].outputIndex == i;
          }
        }
        RemoveFirstAt(options, last);
        options := RemoveFirst(options, option);
        outputs := RemoveAt(outputs, option.outputIndex);   // `Knob.Delete()`
        height := height - SizeValue;
      }
    }

    /** `Input`: resolved exactly as for an options node. */
    function Input(inputValue: int): (r: InputResult)
      reads this
      requires Valid()
      ensures inputValue == Back.Code() ==> r == Resolved(outputs[0].DialogNodeAcross())
      ensures inputValue == Next.Code() ==> r == (if |options| >= 2 then Resolved(outputs[1].DialogNodeAcross()) else OutOfRange)
      ensures 0 <= inputValue < |options| ==> r == Resolved(outputs[inputValue].DialogNodeAcross())
      ensures inputValue < Next.Code() || inputValue >= |options| ==> r == OutOfRange
    {
      ResolveInput(options, outputs, inputValue)
    }

    /**
     * `IsBackAvailable`: the first output is connected, to any node. `Input(Back)`
     * casts that node to a dialog node, so it is null for a node of another kind.
     */
    function IsBackAvailable(): (r: bool)
      reads this
      requires Valid()
      ensures r <==> outputs[0].link != Unconnected
      ensures r <==> Input(Back.Code()) != Resolved(None) || outputs[0].link == ToOtherNode
    {
      outputs[0].link != Unconnected
    }

    /** `IsNextAvailable`: never, for this node kind. */
    function IsNextAvailable(): (r: bool)
      ensures !r
    {
      false
    }

    /** `PassAhead` (inherited): the node itself, whatever the input. */
    function PassAhead(inputValue: int): (r: RandomOutputNode)
      ensures r == this
    {
      this
    }

    /** `GetAllOptions`: one empty text per option. */
    function GetAllOptions(): (r: seq<string>)
      reads this
      requires Valid()
      ensures |r| == |options|
      ensures forall i :: 0 <= i < |r| ==> r[i] == options[i].display && r[i] == ""
    {
      var opts := options;
      seq(|opts|, i requires 0 <= i < |opts| => opts[i].display)
    }
  }
}
