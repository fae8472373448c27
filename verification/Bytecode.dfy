/** The bytecode module and its opcodes (crates/fcb_core/src/bytecode.rs). */
module Bytecode {
  import opened Basics
  import opened Text

  const FORMAT_VERSION: u32 := 3
  const MIN_SUPPORTED_MODULE_VERSION: u32 := 1

  datatype OpCode =
    | LoadConst | LoadArg | LoadLocal | StoreLocal | Pop
    | Add | Sub | Mul | Div | Greater | Equal
    | Jump | JumpIfFalse | JumpIfTrue
    | MakeList | MakeMap | StringConcat | GetField | SetField | IsType | AsType
    | CallStatic | CallDynamic | CallOriginal | CallClosure | MakeClosure | NewObject
    | Throw | TryBegin | Await | AsyncReturn | Yield | TryFinally | EndFinally | Rethrow | Return

  function FromByte(b: byte): Option<OpCode> {
    match b
    case 0x01 => Some(LoadConst) case 0x02 => Some(LoadArg) case 0x03 => Some(LoadLocal)
    case 0x04 => Some(StoreLocal) case 0x05 => Some(Pop)
    case 0x10 => Some(Add) case 0x11 => Some(Sub) case 0x12 => Some(Mul) case 0x13 => Some(Div)
    case 0x20 => Some(Greater) case 0x21 => Some(Equal)
    case 0x30 => Some(Jump) case 0x31 => Some(JumpIfFalse) case 0x32 => Some(JumpIfTrue)
    case 0x40 => Some(MakeList) case 0x41 => Some(MakeMap) case 0x42 => Some(StringConcat)
    case 0x43 => Some(GetField) case 0x44 => Some(SetField) case 0x45 => Some(IsType) case 0x46 => Some(AsType)
    case 0x50 => Some(CallStatic) case 0x51 => Some(CallDynamic) case 0x52 => Some(CallOriginal)
    case 0x53 => Some(CallClosure) case 0x54 => Some(MakeClosure) case 0x55 => Some(NewObject)
    case 0x60 => Some(Throw) case 0x61 => Some(TryBegin) case 0x62 => Some(Await) case 0x63 => Some(AsyncReturn)
    case 0x64 => Some(Yield) case 0x65 => Some(TryFinally) case 0x66 => Some(EndFinally) case 0x67 => Some(Rethrow)
    case 0xff => Some(Return)
    case _ => None
  }

  /** The discriminants of the `repr(u8)` enum. */
  function ToByte(op: OpCode): byte {
    match op
    case LoadConst => 0x01 case LoadArg => 0x02 case LoadLocal => 0x03 case StoreLocal => 0x04 case Pop => 0x05
    case Add => 0x10 case Sub => 0x11 case Mul => 0x12 case Div => 0x13
    case Greater => 0x20 case Equal => 0x21
    case Jump => 0x30 case JumpIfFalse => 0x31 case JumpIfTrue => 0x32
    case MakeList => 0x40 case MakeMap => 0x41 case StringConcat => 0x42
    case GetField => 0x43 case SetField => 0x44 case IsType => 0x45 case AsType => 0x46
    case CallStatic => 0x50 case CallDynamic => 0x51 case CallOriginal => 0x52
    case CallClosure => 0x53 case MakeClosure => 0x54 case NewObject => 0x55
    case Throw => 0x60 case TryBegin => 0x61 case Await => 0x62 case AsyncReturn => 0x63
    case Yield => 0x64 case TryFinally => 0x65 case EndFinally => 0x66 case Rethrow => 0x67
    case Return => 0xff
  }

  /** The decoder and the discriminants agree, so no opcode is unreachable and no byte means two. */
  lemma FromByteInvertsToByte(b: byte, op: OpCode)
    ensures FromByte(b) == Some(op) <==> b == ToByte(op)
  {
  }

  function OperandLen(op: OpCode): nat {
    match op
    case LoadConst | Jump | JumpIfFalse | JumpIfTrue | MakeList | MakeMap | StringConcat
       | GetField | SetField | IsType | AsType | MakeClosure => 2
    case CallStatic | CallDynamic | CallOriginal | CallClosure | NewObject => 3
    case TryBegin | TryFinally => 4
    case LoadArg | LoadLocal | StoreLocal => 1
    case _ => 0
  }

  datatype AsyncKind = Sync | AsyncFuture | AsyncStar | SyncStar

  /** A double is its 64-bit pattern. */
  datatype Constant = Int(i: i64) | Double(bits: u64) | Bool(b: bool) | String(s: Text) | Null

  datatype SourceMapEntry = SourceMapEntry(bytecodeOffset: u32, sourceLocation: Text)

  datatype DebugLocalEntry = DebugLocalEntry(slot: u16, name: Text)

  datatype Function = Function(
    name: Text,
    returnConvention: Text,
    asyncKind: AsyncKind,
    paramCount: byte,
    localCount: byte,
    constants: seq<Constant>,
    code: Bytes,
    sourceMap: seq<SourceMapEntry>,
    debugLocals: seq<DebugLocalEntry>)

  datatype Module = Module(version: u32, functions: seq<Function>)

  const TAGGED: Text := Ascii("tagged")
  const UNBOXED_INT64: Text := Ascii("unboxed_int64")

  lemma ConventionsDiffer()
    ensures TAGGED != UNBOXED_INT64
  {
    assert |TAGGED| == 6 && |UNBOXED_INT64| == 13;
  }
}
