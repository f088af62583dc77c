/** The rewrite the patcher applies to `net/optifine/player/CapeUtils.class`
    once ASM has parsed it: every LDC instruction, in every method, that
    loads the String constant `"[a-zA-Z0-9_]+"` is made to load `""`
    instead. The class is modelled at the level of ASM's tree API: a class
    node holds field and method nodes, a method node holds its instruction
    list, and an LDC node holds its constant. */
module CapePatch {

  /** `Opcodes.LDC`. ASM reports LDC_W and LDC2_W as LDC too. */
  const LDC: int := 18

  /** The user-name pattern whose constant the patch neutralises. */
  const CapeNamePattern: string := "[a-zA-Z0-9_]+"

  /** What the patched LDCs load instead. */
  const Neutralised: string := ""

  /** The value an `LdcInsnNode` carries in its `cst` field: a boxed
      Integer, Float, Long or Double, a String, an ASM `Type`, a `Handle`
      or a `ConstantDynamic`. Floating-point values are kept as their
      IEEE 754 bit patterns. */
  datatype Constant =
    | IntegerConst(intValue: int)
    | FloatConst(floatBits: bv32)
    | LongConst(longValue: int)
    | DoubleConst(doubleBits: bv64)
    | StringConst(chars: string)
    | TypeConst(descriptor: string)
    | HandleConst(tag: int, owner: string, member: string, memberDescriptor: string, isInterface: bool)
    | DynamicConst(dynamicName: string, dynamicDescriptor: string)

  /** `cst.equals(s)` for a String `s`: every constant class other than
      String answers false, and a String compares its characters. */
  predicate EqualsString(cst: Constant, s: string) {
    match cst
    case StringConst(chars) => chars == s
    case _ => false
  }

  /** An instruction node: an `LdcInsnNode`, or any other node (labels,
      line numbers and frames included), of which only the opcode matters. */
  datatype Insn = Ldc(cst: Constant) | Other(opcode: int)

  /** ASM gives opcode LDC to `LdcInsnNode` alone, so the cast that follows
      the opcode test never fails. */
  type AsmInsn = i: Insn | !i.Other? || i.opcode != LDC witness Other(-1)

  /** `AbstractInsnNode.getOpcode()`. */
  function Opcode(i: Insn): int {
    match i
    case Ldc(_) => LDC
    case Other(op) => op
  }

  /** A field's `ConstantValue`, if it has one. */
  datatype FieldValue = NoValue | Value(cst: Constant)

  datatype FieldNode = FieldNode(access: int, name: string, descriptor: string, value: FieldValue)

  datatype MethodNode = MethodNode(access: int, name: string, descriptor: string, instructions: seq<AsmInsn>)

  datatype ClassNode = ClassNode(
    version: int,
    access: int,
    name: string,
    superName: string,
    fields: seq<FieldNode>,
    methods: seq<MethodNode>)

  /** An instruction the patch is aimed at: an LDC of the pattern String. */
  predicate IsTarget(i: Insn) {
    i == Ldc(StringConst(CapeNamePattern))
  }

  /** How one instruction may relate to its patched version: a target
      becomes an LDC of the empty string, everything else stays as it was. */
  predicate Rewrites(before: Insn, after: Insn) {
    if IsTarget(before) then after == Ldc(StringConst(Neutralised)) else after == before
  }

  /** `after` is `before` with each instruction rewritten in place and no
      other part of the method touched. */
  predicate RewritesMethod(before: MethodNode, after: MethodNode) {
    && after == before.(instructions := after.instructions)
    && |after.instructions| == |before.instructions|
    && forall k :: 0 <= k < |before.instructions| ==>
         Rewrites(before.instructions[k], after.instructions[k])
  }

  /** `after` is `before` with every method rewritten, in the same order,
      and no other part of the class touched. */
  predicate RewritesClass(before: ClassNode, after: ClassNode) {
    && after == before.(methods := after.methods)
    && |after.methods| == |before.methods|
    && forall i :: 0 <= i < |before.methods| ==>
         RewritesMethod(before.methods[i], after.methods[i])
  }

  /** The body of the inner loop for one instruction. */
  function PatchInsn(i: AsmInsn): (r: AsmInsn)
    ensures Rewrites(i, r)
    ensures Opcode(r) == Opcode(i)
  {
    if Opcode(i) == LDC && EqualsString(i.cst, CapeNamePattern) then Ldc(StringConst(Neutralised))
    else i
  }

  function PatchInsns(insns: seq<AsmInsn>): (r: seq<AsmInsn>)
    ensures |r| == |insns|
    ensures forall k :: 0 <= k < |insns| ==> Rewrites(insns[k], r[k])
  {
    if |insns| == 0 then [] else [PatchInsn(insns[0])] + PatchInsns(insns[1..])
  }

  function PatchMethod(m: MethodNode): (r: MethodNode)
    ensures RewritesMethod(m, r)
  {
    m.(instructions := PatchInsns(m.instructions))
  }

  function PatchMethods(ms: seq<MethodNode>): (r: seq<MethodNode>)
    ensures |r| == |ms|
    ensures forall i :: 0 <= i < |ms| ==> RewritesMethod(ms[i], r[i])
  {
    if |ms| == 0 then [] else [PatchMethod(ms[0])] + PatchMethods(ms[1..])
  }

  /** The whole rewrite, as a function of the parsed class. */
  function PatchClass(c: ClassNode): (r: ClassNode)
    ensures RewritesClass(c, r)
  {
    c.(methods := PatchMethods(c.methods))
  }

  /** The two nested loops over `methods` and `instructions`, updating the
      constant of each matching LDC in place. */
  method PatchCapeUtils(c: ClassNode) returns (r: ClassNode)
    ensures RewritesClass(c, r)
  {
    var methods := c.methods;
    var i := 0;
    while i < |methods|
      invariant 0 <= i <= |methods| == |c.methods|
      invariant forall j :: 0 <= j < i ==> RewritesMethod(c.methods[j], methods[j])
      invariant forall j :: i <= j < |methods| ==> methods[j] == c.methods[j]
    {
      var m := methods[i];
      var insns := m.instructions;
      var k := 0;
      while k < |insns|
        invariant 0 <= k <= |insns| == |m.instructions|
        invariant forall j :: 0 <= j < k ==> Rewrites(m.instructions[j], insns[j])
        invariant forall j :: k <= j < |insns| ==> insns[j] == m.instructions[j]
      {
        var insn := insns[k];
        if Opcode(insn) == LDC {
          if EqualsString(insn.cst, CapeNamePattern) {
            insns := insns[k := Ldc(StringConst(Neutralised))];
          }
        }
        k := k + 1;
      }
      methods := methods[i := m.(instructions := insns)];
      i := i + 1;
    }
    r := c.(methods := methods);
  }

  /** The relation leaves no freedom: whatever satisfies it is the result
      of `PatchClass`, so the loop and the function agree. */
  lemma RewritesClassDeterminesResult(c: ClassNode, r: ClassNode)
    requires RewritesClass(c, r)
    ensures r == PatchClass(c)
  {
    var p := PatchClass(c);
    forall i | 0 <= i < |c.methods|
      ensures r.methods[i] == p.methods[i]
    {
      var m := c.methods[i];
      assert r.methods[i].instructions == p.methods[i].instructions by {
        forall k | 0 <= k < |m.instructions|
          ensures r.methods[i].instructions[k] == p.methods[i].instructions[k]
        {
          assert Rewrites(m.instructions[k], r.methods[i].instructions[k]);
          assert Rewrites(m.instructions[k], p.methods[i].instructions[k]);
        }
      }
    }
    assert r.methods == p.methods;
  }

  /** Some method of `c` still loads the pattern String. */
  predicate HasTarget(c: ClassNode) {
    exists i, k | 0 <= i < |c.methods| && 0 <= k < |c.methods[i].instructions| ::
      IsTarget(c.methods[i].instructions[k])
  }

  /** After the rewrite no instruction in any method loads the pattern,
      because the empty string differs from it. */
  lemma PatchLeavesNoTarget(c: ClassNode)
    ensures !HasTarget(PatchClass(c))
  {
    var p := PatchClass(c);
    forall i, k | 0 <= i < |p.methods| && 0 <= k < |p.methods[i].instructions|
      ensures !IsTarget(p.methods[i].instructions[k])
    {
      assert Rewrites(c.methods[i].instructions[k], p.methods[i].instructions[k]);
      assert Neutralised != CapeNamePattern;
    }
  }

  /** The rewrite changes the class exactly when some LDC loads the pattern. */
  lemma PatchChangesIffTarget(c: ClassNode)
    ensures PatchClass(c) == c <==> !HasTarget(c)
  {
    var p := PatchClass(c);
    if HasTarget(c) {
      var i, k :| 0 <= i < |c.methods| && 0 <= k < |c.methods[i].instructions|
        && IsTarget(c.methods[i].instructions[k]);
      assert p.methods[i].instructions[k] == Ldc(StringConst(Neutralised));
      assert Neutralised != CapeNamePattern;
      assert p.methods[i].instructions[k] != c.methods[i].instructions[k];
    } else {
      assert RewritesClass(c, c) by {
        forall i, k | 0 <= i < |c.methods| && 0 <= k < |c.methods[i].instructions|
          ensures Rewrites(c.methods[i].instructions[k], c.methods[i].instructions[k])
        {
          assert !IsTarget(c.methods[i].instructions[k]);
        }
      }
      RewritesClassDeterminesResult(c, c);
    }
  }

  /** Running the patch on its own output changes nothing. */
  lemma PatchIdempotent(c: ClassNode)
    ensures PatchClass(PatchClass(c)) == PatchClass(c)
  {
    PatchLeavesNoTarget(c);
    PatchChangesIffTarget(PatchClass(c));
  }
}
