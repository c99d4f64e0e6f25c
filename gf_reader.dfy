/**
 * The GF decoder as the source runs it: a decoding context whose fields the
 * command handlers update in place, over an input stream, and the loop that
 * reads one opcode at a time until `post`. Every handler is proved to do what
 * the corresponding function of module GfSpec says, and the loop to compute
 * `GfSpec.Run`.
 */
module GfReader {
  import opened Outcome
  import opened FileReader
  import GfSpec

  /** The character being decoded, updated in place by the handlers. */
  class CharacterContext {
    var charData: GfSpec.CharData
    var color: GfSpec.Color
    var m: int
    var n: int
    var started: bool

    ghost function State(): GfSpec.CharacterState
      reads this
    {
      GfSpec.CharacterState(charData, color, m, n, started)
    }

    constructor ()
      ensures State() == GfSpec.InitialCharacter()
    {
      charData := GfSpec.CharData(0, 0, 0, 0, 0, [], []);
      color := GfSpec.Black;
      m := 0;
      n := 0;
      started := false;
    }
  }

  /** The decoding context: the font built so far, the open character, the pending specials and the input. */
  class Context {
    var finished: bool
    var fontData: GfSpec.FontData
    const currentCharacter: CharacterContext
    var specials: seq<GfSpec.Special>
    const input: Reader

    ghost predicate Valid()
      reads this, input
    {
      input.Valid()
    }

    /** The context as a value, with the read position of the input. */
    ghost function State(): GfSpec.DecodeState
      reads this, currentCharacter, input
    {
      GfSpec.DecodeState(finished, fontData, currentCharacter.State(), specials, input.pos)
    }

    /**
     * A handler that returned `r` did what `spec` says: on success the new
     * context is the specified state; on failure it reports the specified error.
     */
    ghost predicate Follows(spec: Result<GfSpec.DecodeState>, r: Result<()>)
      reads this, currentCharacter, input
    {
      match spec
      case Ok(t) => r == Ok(()) && State() == t
      case Err(e) => r == Err(e)
    }

    constructor (input: Reader)
      requires input.Valid()
      ensures Valid() && this.input == input && fresh(currentCharacter)
      ensures State() == GfSpec.Initial(input.pos)
    {
      finished := false;
      fontData := GfSpec.FontData([], []);
      currentCharacter := new CharacterContext();
      specials := [];
      this.input := input;
    }

    method Paint(d: int)
      modifies currentCharacter
      ensures State() == old(State()).(current := GfSpec.Paint(old(State()).current, d))
    {
      var c := currentCharacter;
      match c.color {
        case Black =>
          if d > 0 {
            c.charData := c.charData.(bitmap := c.charData.bitmap + [GfSpec.BlackLine(c.m, c.n, d)]);
          }
          c.color := GfSpec.White;
        case White =>
          c.color := GfSpec.Black;
      }
      c.m := c.m + d;
    }

    method BocCommon(code: int, minM: int, maxM: int, minN: int, maxN: int)
      modifies currentCharacter
      ensures State() == old(State()).(current := GfSpec.BocCommon(code, minM, maxM, minN, maxN))
    {
      var c := currentCharacter;
      c.started := true;
      c.m := minM;
      c.n := maxN;
      c.color := GfSpec.White;
      c.charData := GfSpec.CharData(code, minM, maxM, minN, maxN, [], []);
    }

    method Boc(code: int) returns (r: Result<()>)
      requires Valid()
      modifies currentCharacter, input
      ensures Valid() && Follows(GfSpec.Boc(old(State()), input.data, code), r)
    {
      ghost var s := State();
      GfSpec.BocReads(s, input.data, code);
      var _ := input.Read4();
      var minM :- input.Read4();
      var maxM :- input.Read4();
      var minN :- input.Read4();
      var maxN :- input.Read4();
      BocCommon(code, minM, maxM, minN, maxN);
      r := Ok(());
    }

    method Boc1(code: int) returns (r: Result<()>)
      requires Valid()
      modifies currentCharacter, input
      ensures Valid() && Follows(GfSpec.Boc1(old(State()), input.data, code), r)
    {
      var delM :- input.Read1();
      var maxM :- input.Read1();
      var delN :- input.Read1();
      var maxN :- input.Read1();
      BocCommon(code, maxM - delM, maxM, maxN - delN, maxN);
      r := Ok(());
    }

    method Eoc()
      modifies this, currentCharacter
      ensures State() == GfSpec.Eoc(old(State()))
    {
      fontData := fontData.(chars := fontData.chars + [currentCharacter.charData]);
      currentCharacter.started := false;
    }

    method Skip(rows: int)
      modifies currentCharacter
      ensures State() == old(State()).(current := GfSpec.Skip(old(State()).current, rows))
    {
      var c := currentCharacter;
      c.color := GfSpec.White;
      c.m := c.charData.minM;
      c.n := c.n - (rows + 1);
    }

    method NewRow(indent: int)
      modifies currentCharacter
      ensures State() == old(State()).(current := GfSpec.NewRow(old(State()).current, indent))
    {
      var c := currentCharacter;
      c.color := GfSpec.Black;
      c.m := c.charData.minM + indent;
      c.n := c.n - 1;
    }

    method Xxx(size: int) returns (r: Result<()>)
      requires Valid()
      modifies this, input
      ensures Valid() && Follows(GfSpec.Xxx(old(State()), input.data, size), r)
    {
      if size < 0 {
        return Err(NegativeLengthForSpecial);
      }
      var special :- input.ReadString(size);
      specials := specials + [GfSpec.Special(special, [])];
      r := Ok(());
    }

    method Yyy(v: int) returns (r: Result<()>)
      modifies this
      ensures Follows(GfSpec.Yyy(old(State()), v), r)
    {
      if specials == [] {
        return Err(YYYWithoutXXX);
      }
      var last := specials[|specials| - 1];
      specials := specials[..|specials| - 1] + [last.(numericParams := last.numericParams + [v])];
      r := Ok(());
    }

    method Pre(id: int) returns (r: Result<()>)
      requires Valid()
      modifies this, input
      ensures Valid() && Follows(GfSpec.Pre(old(State()), input.data, id), r)
    {
      if id != GfSpec.GF_ID {
        return Err(InvalidGFID);
      }
      var size :- input.Read1();
      var title :- input.ReadString(size);
      fontData := fontData.(title := title);
      r := Ok(());
    }

    method Post(pointer: int)
      modifies this
      ensures State() == GfSpec.Post(old(State()), pointer)
    {
      finished := true;
    }

    /** One arm of the decode loop's `match`, for an opcode already read. */
    method Dispatch(opcode: int) returns (r: Result<()>)
      requires Valid() && 0 <= opcode < 256
      modifies this, currentCharacter, input
      ensures Valid() && Follows(GfSpec.Dispatch(old(State()), input.data, opcode), r)
    {
      if opcode <= GfSpec.EOC {
        r := DispatchCharacter(opcode);
      } else if opcode <= 238 {
        r := DispatchRows(opcode);
      } else {
        r := DispatchFont(opcode);
      }
    }

    /** The arms for painting and for the start and end of a character, opcodes 0 to 69. */
    method DispatchCharacter(opcode: int) returns (r: Result<()>)
      requires Valid() && 0 <= opcode <= GfSpec.EOC
      modifies this, currentCharacter, input
      ensures Valid() && Follows(GfSpec.Dispatch(old(State()), input.data, opcode), r)
    {
      r := Ok(());
      if opcode <= 63 {
        Paint(opcode);
      } else if opcode == 64 {
        var d :- input.Read1();
        Paint(d);
      } else if opcode == 65 {
        var d :- input.Read2();
        Paint(d);
      } else if opcode == 66 {
        var d :- input.Read3();
        Paint(d);
      } else if opcode == GfSpec.BOC {
        var c :- input.Read4();
        r := Boc(c);
      } else if opcode == GfSpec.BOC1 {
        var c :- input.Read1();
        r := Boc1(c);
      } else {
        Eoc();
      }
    }

    /** The arms that move the pen to a later row, opcodes 70 to 238. */
    method DispatchRows(opcode: int) returns (r: Result<()>)
      requires Valid() && 70 <= opcode <= 238
      modifies currentCharacter, input
      ensures Valid() && Follows(GfSpec.Dispatch(old(State()), input.data, opcode), r)
    {
      r := Ok(());
      if opcode == 70 {
        Skip(0);
      } else if opcode == 71 {
        var rows :- input.Read1();
        Skip(rows);
      } else if opcode == 72 {
        var rows :- input.Read2();
        Skip(rows);
      } else if opcode == 73 {
        var rows :- input.Read3();
        Skip(rows);
      } else {
        NewRow(opcode - 74);
      }
    }

    /** The arms for specials, the preamble, the postamble and the opcodes refused, 239 to 255. */
    method DispatchFont(opcode: int) returns (r: Result<()>)
      requires Valid() && 239 <= opcode < 256
      modifies this, input
      ensures Valid() && Follows(GfSpec.Dispatch(old(State()), input.data, opcode), r)
    {
      r := Ok(());
      if opcode == 239 {
        var k :- input.Read1();
        r := Xxx(k);
      } else if opcode == 240 {
        var k :- input.Read2();
        r := Xxx(k);
      } else if opcode == 241 {
        var k :- input.Read3();
        r := Xxx(k);
      } else if opcode == GfSpec.XXX4 {
        var k :- input.Read4();
        r := Xxx(k);
      } else if opcode == GfSpec.YYY {
        var y :- input.Read4();
        r := Yyy(y);
      } else if opcode == GfSpec.NO_OP {
      } else if opcode <= 246 {
        r := Err(InvalidOpCode);
      } else if opcode == GfSpec.PRE {
        var id :- input.Read1();
        r := Pre(id);
      } else if opcode == GfSpec.POST {
        var p :- input.Read4();
        Post(p);
      } else {
        r := Err(InvalidOpCode);
      }
    }
  }

  /**
   * `gfreader`: decodes the GF file that `input` holds from its current
   * position, reading opcodes until `post` and stopping at the first error.
   */
  method GfRead(input: Reader) returns (r: Result<GfSpec.FontData>)
    requires input.Valid()
    modifies input
    ensures r == GfSpec.Run(GfSpec.Initial(old(input.pos)), input.data)
  {
    var ctx := new Context(input);
    while !ctx.finished
      invariant ctx.Valid() && ctx.input == input && fresh(ctx.currentCharacter)
      invariant GfSpec.Run(ctx.State(), input.data) == GfSpec.Run(GfSpec.Initial(old(input.pos)), input.data)
      decreases |input.data| - input.pos
    {
      ghost var s := ctx.State();
      var opcode :- input.Read1();
      var _ :- ctx.Dispatch(opcode);
      assert GfSpec.Step(s, input.data) == Ok(ctx.State());
    }
    r := Ok(ctx.fontData);
  }
}
