/** `OptionsDialogNode`: a line of dialog followed by options the player picks from. */
module OptionsNode {
  import opened Wrappers
  import opened Lists
  import opened DialogNode

  class OptionsDialogNode {
    /** Position of the first option's output knob, and the step between knobs. */
    static const StartValue: int := 114
    static const SizeValue: int := 22
    /** Height of the node's rectangle before any option is added. */
    static const BaseHeight: int := 160

    var options: seq<OptionData>   // `_options`
    var outputs: seq<Knob>         // the plugin's `Outputs`
    var height: int                // `rect.height`
    var name: string
    var speakerID: string
    var dialogText: string

    /** Object invariant: at least one option, and the layout bookkeeping. */
    ghost predicate Valid()
      reads this
    {
      |options| >= 1 && Bookkept(options, outputs, height, StartValue, SizeValue, BaseHeight)
    }

    /** `Create`: a node holding one option and the output that option created. */
    constructor Create()
      ensures Valid()
      ensures options == [OptionData("Write Here", 0)]
      ensures outputs == [Knob(StartValue, Unconnected)]
      ensures height == BaseHeight + SizeValue
      ensures name == "Options Node" && speakerID == "" && dialogText == "What I'll say..."
    {
      height := BaseHeight;
      name := "Options Node";
      outputs := [];
      speakerID := "";
      dialogText := "What I'll say...";
      options := [];
      new;
      AddNewOption();
    }

    /** `AddNewOption`: creates an output, then records its index in a new option. */
    method AddNewOption()
      requires Bookkept(options, outputs, height, StartValue, SizeValue, BaseHeight)
      modifies this`options, this`outputs, this`height
      ensures Valid()
      ensures outputs == old(outputs) + [Knob(StartValue + |old(options)| * SizeValue, Unconnected)]
      ensures options == old(options) + [OptionData("Write Here", |outputs| - 1)]
      ensures height == old(height) + SizeValue
    {
      var option := OptionData("Write Here", 0);
      outputs := outputs + [Knob(StartValue + |options| * SizeValue, Unconnected)];
      option := option.(outputIndex := |outputs| - 1);
      height := height + SizeValue;
      options := options + [option];
    }

    /** `RemoveLastOption`: refused when one option is left; otherwise drops the last option and its output. */
    method RemoveLastOption()
      requires Valid()
      modifies this`options, this`outputs, this`height
      ensures Valid()
      ensures |old(options)| == 1 ==> options == old(options) && outputs == old(outputs) && height == old(height)
      ensures |old(options)| > 1 ==>
        && options == old(options)[..|old(options)| - 1]
        && outputs == old(outputs)[..|old(outputs)| - 1]
        && height == old(height) - SizeValue
    {
      if |options| > 1 {
        var last := |options| - 1;
        var option := options[last];
        assert option !in options[..last] by {
          forall i | 0 <= i < last ensures options[..last][i] != option {
            assert options[..last][i].outputIndex == i;
          }
        }
        RemoveFirstAt(options, last);
        options := RemoveFirst(options, option);
        outputs := RemoveAt(outputs, option.outputIndex);   // `Knob.Delete()`
        height := height - SizeValue;
      }
    }

    /**
     * `Input`: the node across the output that an input value selects. `Back`
     * reads `Outputs[0]` and `Next` reads `Outputs[1]`, which are the outputs of
     * options 0 and 1; option `k` reads the output it recorded.
     */
    function Input(inputValue: int): (r: InputResult)
      reads this
      requires Valid()
      ensures inputValue == Back.Code() ==> r == Resolved(outputs[0].DialogNodeAcross())
      ensures inputValue == Next.Code() ==> r == (if |options| >= 2 then Resolved(outputs[1].DialogNodeAcross()) else OutOfRange)
      ensures 0 <= inputValue < |options| ==> r == Resolved(outputs[inputValue].DialogNodeAcross())
      ensures inputValue < Next.Code() || inputValue >= |options| ==> r == OutOfRange
    {
      ResolveInput(options, outputs, inputValue)
    }

    /** `Back` and `Next` are not separate edges: they are options 0 and 1. */
    lemma ReservedValuesReadOptions()
      requires Valid()
      ensures Input(Back.Code()) == Input(0)
      ensures Input(Next.Code()) == Input(1)
    {
    }

    /**
     * `IsBackAvailable`: the first output is connected, to any node. `Input(Back)`
     * casts that node to a dialog node, so it is null for a node of another kind.
     */
    function IsBackAvailable(): (r: bool)
      reads this
      requires Valid()
      ensures r <==> outputs[0].link != Unconnected
      ensures r <==> Input(Back.Code()) != Resolved(None) || outputs[0].link == ToOtherNode
    {
      outputs[0].link != Unconnected
    }

    /** `IsNextAvailable`: never, for this node kind. */
    function IsNextAvailable(): (r: bool)
      ensures !r
    {
      false
    }

    /** `PassAhead` (inherited): the node itself, whatever the input. */
    function PassAhead(inputValue: int): (r: OptionsDialogNode)
      ensures r == this
    {
      this
    }

    /** `GetAllOptions`: the option texts, one per option, in list order. */
    function GetAllOptions(): (r: seq<string>)
      reads this
      ensures |r| == |options|
      ensures forall i :: 0 <= i < |r| ==> r[i] == options[i].display
    {
      var opts := options;
      seq(|opts|, i requires 0 <= i < |opts| => opts[i].display)
    }
  }
}
