/**
 * The validation done by the constructor of ReduceOpHelper: it records the
 * shape and encoding of operand 0 and the element types of all inputs, and
 * reports, through the operation's diagnostics, every input whose shape or
 * encoding differs from operand 0's.
 * MLIR handles (attributes, types, operations) are opaque values compared
 * by identity.
 */
module ReduceOpHelpers {
  import opened Sequences

  /** An MLIR encoding attribute, compared by identity. */
  datatype Attribute = Attribute(id: nat)

  /** An MLIR element type, compared by identity. */
  datatype ElementType = ElementType(id: nat)

  /** A ranked tensor type: its static shape, element type and encoding. */
  datatype TensorType = TensorType(shape: seq<int>, elementType: ElementType, encoding: Attribute)

  /** A triton.reduce operation: its identity, the types of its inputs and its axis. */
  datatype ReduceOp = ReduceOp(id: nat, inputTypes: seq<TensorType>, axis: int)

  /** The element types of a sequence of tensor types, in order (ReduceOp::getElementTypes). */
  function ElementTypes(ts: seq<TensorType>): (r: seq<ElementType>)
    ensures |r| == |ts|
    ensures forall i :: 0 <= i < |ts| ==> r[i] == ts[i].elementType
    decreases |ts|
  {
    if ts == [] then [] else ElementTypes(ts[..|ts| - 1]) + [ts[|ts| - 1].elementType]
  }

  /** The two errors the check can emit. */
  datatype Message = ShapeMismatch | EncodingMismatch
  {
    /** The text streamed into emitError(). */
    function Text(): (s: string)
      ensures |s| > 0
    {
      match this
      case ShapeMismatch => "shape mismatch"
      case EncodingMismatch => "encoding mismatch"
    }
  }

  /** An error emitted on an operation. */
  datatype Diagnostic = Diagnostic(op: nat, message: Message)

  /** The diagnostics engine the constructor reports through; it keeps every error in order. */
  class DiagnosticEngine {
    var emitted: seq<Diagnostic>

    constructor ()
      ensures emitted == []
    {
      emitted := [];
    }

    method Emit(d: Diagnostic)
      modifies this
      ensures emitted == old(emitted) + [d]
    {
      emitted := emitted + [d];
    }
  }

  /** The errors one input type draws against the recorded shape and encoding, shape first. */
  function InputDiagnostics(op: nat, t: TensorType, shape: seq<int>, encoding: Attribute): (r: seq<Diagnostic>)
    ensures Diagnostic(op, ShapeMismatch) in r <==> t.shape != shape
    ensures Diagnostic(op, EncodingMismatch) in r <==> t.encoding != encoding
    ensures forall d :: d in r ==> d == Diagnostic(op, ShapeMismatch) || d == Diagnostic(op, EncodingMismatch)
    ensures |r| <= 2
  {
    (if t.shape != shape then [Diagnostic(op, ShapeMismatch)] else [])
    + (if t.encoding != encoding then [Diagnostic(op, EncodingMismatch)] else [])
  }

  /** The errors a sequence of input types draws, input by input. */
  function Diagnostics(op: nat, ts: seq<TensorType>, shape: seq<int>, encoding: Attribute): (r: seq<Diagnostic>)
    ensures r == [] <==> forall i :: 0 <= i < |ts| ==> ts[i].shape == shape && ts[i].encoding == encoding
    decreases |ts|
  {
    if ts == [] then []
    else
      var init := ts[..|ts| - 1];
      var last := ts[|ts| - 1];
      assert forall i :: 0 <= i < |init| ==> init[i] == ts[i];
      var r := Diagnostics(op, init, shape, encoding) + InputDiagnostics(op, last, shape, encoding);
      assert r == [] ==> InputDiagnostics(op, last, shape, encoding) == [];
      r
  }

  lemma DiagnosticsStep(op: nat, ts: seq<TensorType>, k: nat, shape: seq<int>, encoding: Attribute)
    requires k < |ts|
    ensures Diagnostics(op, ts[..k + 1], shape, encoding)
      == Diagnostics(op, ts[..k], shape, encoding) + InputDiagnostics(op, ts[k], shape, encoding)
  {
    assert ts[..k + 1][..k] == ts[..k];
  }

  /** The errors the constructor emits for a reduction: every input checked against operand 0. */
  function MismatchDiagnostics(rop: ReduceOp): (r: seq<Diagnostic>)
    requires |rop.inputTypes| > 0
    ensures r == [] <==> forall i :: 0 <= i < |rop.inputTypes| ==>
      rop.inputTypes[i].shape == rop.inputTypes[0].shape && rop.inputTypes[i].encoding == rop.inputTypes[0].encoding
  {
    Diagnostics(rop.id, rop.inputTypes, rop.inputTypes[0].shape, rop.inputTypes[0].encoding)
  }

  /**
   * The helper built for one reduction.  The constructor reads operand 0
   * (the source indexes it, so a reduction has at least one input), then
   * reports each mismatching input and completes construction regardless.
   */
  class ReduceOpHelper {
    const op: nat
    const srcShape: seq<int>
    const srcEncoding: Attribute
    const srcElementTypes: seq<ElementType>
    const axis: int

    constructor (rop: ReduceOp, diags: DiagnosticEngine)
      requires |rop.inputTypes| > 0
      modifies diags
      ensures op == rop.id && axis == rop.axis
      ensures srcShape == rop.inputTypes[0].shape
      ensures srcEncoding == rop.inputTypes[0].encoding
      ensures srcElementTypes == ElementTypes(rop.inputTypes)
      ensures diags.emitted == old(diags.emitted) + MismatchDiagnostics(rop)
    {
      op := rop.id;
      axis := rop.axis;
      var firstTy := rop.inputTypes[0];
      srcShape := firstTy.shape;
      srcEncoding := firstTy.encoding;
      srcElementTypes := ElementTypes(rop.inputTypes);
      new;
      ghost var start := diags.emitted;
      var ts := rop.inputTypes;
      var shape, encoding := firstTy.shape, firstTy.encoding;
      for k := 0 to |ts|
        invariant diags.emitted == start + Diagnostics(op, ts[..k], shape, encoding)
      {
        var t := ts[k];
        ghost var before := diags.emitted;
        if t.shape != shape {
          diags.Emit(Diagnostic(op, ShapeMismatch));
        }
        ghost var mid := diags.emitted;
        if t.encoding != encoding {
          diags.Emit(Diagnostic(op, EncodingMismatch));
        }
        CheckStep(op, ts, k, shape, encoding, start, before, mid, diags.emitted);
      }
      assert ts[..|ts|] == ts;
    }
  }

  /** One pass of the constructor's loop appends the errors of input k. */
  lemma CheckStep(op: nat, ts: seq<TensorType>, k: nat, shape: seq<int>, encoding: Attribute,
                  start: seq<Diagnostic>, before: seq<Diagnostic>, mid: seq<Diagnostic>, after: seq<Diagnostic>)
    requires k < |ts|
    requires before == start + Diagnostics(op, ts[..k], shape, encoding)
    requires mid == before + (if ts[k].shape != shape then [Diagnostic(op, ShapeMismatch)] else [])
    requires after == mid + (if ts[k].encoding != encoding then [Diagnostic(op, EncodingMismatch)] else [])
    ensures after == start + Diagnostics(op, ts[..k + 1], shape, encoding)
  {
    var sh := if ts[k].shape != shape then [Diagnostic(op, ShapeMismatch)] else [];
    var en := if ts[k].encoding != encoding then [Diagnostic(op, EncodingMismatch)] else [];
    DiagnosticsStep(op, ts, k, shape, encoding);
    AppendAssoc(before, sh, en);
    AppendAssoc(start, Diagnostics(op, ts[..k], shape, encoding), sh + en);
  }

  // ---------------------------------------------------------------------
  // What the check reports
  // ---------------------------------------------------------------------

  /** The number of inputs whose shape differs from the recorded one. */
  function ShapeMismatches(ts: seq<TensorType>, shape: seq<int>): nat
    decreases |ts|
  {
    if ts == [] then 0
    else ShapeMismatches(ts[..|ts| - 1], shape) + (if ts[|ts| - 1].shape != shape then 1 else 0)
  }

  /** The number of inputs whose encoding differs from the recorded one. */
  function EncodingMismatches(ts: seq<TensorType>, encoding: Attribute): nat
    decreases |ts|
  {
    if ts == [] then 0
    else EncodingMismatches(ts[..|ts| - 1], encoding) + (if ts[|ts| - 1].encoding != encoding then 1 else 0)
  }

  /**
   * One "shape mismatch" per input whose shape differs and one "encoding
   * mismatch" per input whose encoding differs, and nothing else.
   */
  lemma {:induction false} DiagnosticsCount(op: nat, ts: seq<TensorType>, shape: seq<int>, encoding: Attribute)
    ensures Count(Diagnostics(op, ts, shape, encoding), Diagnostic(op, ShapeMismatch)) == ShapeMismatches(ts, shape)
    ensures Count(Diagnostics(op, ts, shape, encoding), Diagnostic(op, EncodingMismatch)) == EncodingMismatches(ts, encoding)
    ensures |Diagnostics(op, ts, shape, encoding)| == ShapeMismatches(ts, shape) + EncodingMismatches(ts, encoding)
    decreases |ts|
  {
    if ts != [] {
      var init := ts[..|ts| - 1];
      var last := ts[|ts| - 1];
      DiagnosticsCount(op, init, shape, encoding);
      var a := Diagnostics(op, init, shape, encoding);
      var b := InputDiagnostics(op, last, shape, encoding);
      CountConcat(a, b, Diagnostic(op, ShapeMismatch));
      CountConcat(a, b, Diagnostic(op, EncodingMismatch));
      InputDiagnosticsCount(op, last, shape, encoding);
    }
  }

  /** One input draws at most one error of each kind. */
  lemma InputDiagnosticsCount(op: nat, t: TensorType, shape: seq<int>, encoding: Attribute)
    ensures var r := InputDiagnostics(op, t, shape, encoding);
      && Count(r, Diagnostic(op, ShapeMismatch)) == (if t.shape != shape then 1 else 0)
      && Count(r, Diagnostic(op, EncodingMismatch)) == (if t.encoding != encoding then 1 else 0)
      && |r| == (if t.shape != shape then 1 else 0) + (if t.encoding != encoding then 1 else 0)
  {
    var sh := if t.shape != shape then [Diagnostic(op, ShapeMismatch)] else [];
    var en := if t.encoding != encoding then [Diagnostic(op, EncodingMismatch)] else [];
    CountConcat(sh, en, Diagnostic(op, ShapeMismatch));
    CountConcat(sh, en, Diagnostic(op, EncodingMismatch));
    assert sh != [] ==> sh[..0] == [];
    assert en != [] ==> en[..0] == [];
  }

  /** The diagnostics of a concatenation of inputs are those of each part, in input order. */
  lemma {:induction false} DiagnosticsConcat(op: nat, a: seq<TensorType>, b: seq<TensorType>, shape: seq<int>, encoding: Attribute)
    ensures Diagnostics(op, a + b, shape, encoding) == Diagnostics(op, a, shape, encoding) + Diagnostics(op, b, shape, encoding)
    decreases |b|
  {
    if b == [] {
      assert a + b == a;
    } else {
      assert (a + b)[..|a + b| - 1] == a + b[..|b| - 1];
      assert (a + b)[|a + b| - 1] == b[|b| - 1];
      DiagnosticsConcat(op, a, b[..|b| - 1], shape, encoding);
      AppendAssoc(Diagnostics(op, a, shape, encoding), Diagnostics(op, b[..|b| - 1], shape, encoding),
        InputDiagnostics(op, b[|b| - 1], shape, encoding));
    }
  }

  /**
   * Operand 0 is never reported: the errors of a reduction are those of
   * its other inputs, and a single-input reduction reports nothing.
   */
  lemma FirstInputIsSilent(rop: ReduceOp)
    requires |rop.inputTypes| > 0
    ensures var t := rop.inputTypes;
      MismatchDiagnostics(rop) == Diagnostics(rop.id, t[1..], t[0].shape, t[0].encoding)
    ensures |rop.inputTypes| == 1 ==> MismatchDiagnostics(rop) == []
  {
    var t := rop.inputTypes;
    assert t == [t[0]] + t[1..];
    DiagnosticsConcat(rop.id, [t[0]], t[1..], t[0].shape, t[0].encoding);
    assert [t[0]][..0] == [];
  }
}
