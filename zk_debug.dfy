/** The witness gate run before proof creation (`zkas_type_checks`) and the
    debug witness exporter (`export_witness_json`) of the zk debug helpers.
    Field elements, curve points and Merkle paths are abstract: only the
    variant tag of a witness and the presence of its value matter here. */
module ZkDebug {
  import opened Wrappers

  /** An element of the Pallas base field. */
  type BaseField
  /** An element of the Pallas scalar field. */
  type ScalarField
  /** A Pallas curve point (may be the identity). */
  type CurvePoint
  /** A Pallas curve point that is not the identity. */
  type NonIdentityPoint
  /** A fixed-base point used for fixed-base scalar multiplication. */
  type FixedPoint
  /** A fixed-depth Merkle authentication path. */
  type MerkleAuthPath

  type U32 = x: int | 0 <= x < 0x1_0000_0000
  type U64 = x: int | 0 <= x < 0x1_0000_0000_0000_0000

  /** A witness supplied by the prover. Every payload may be unknown
      (`Value::unknown()`) while the circuit shape is being built. */
  datatype Witness =
    | EcPoint(point: Option<CurvePoint>)
    | EcNiPoint(niPoint: Option<NonIdentityPoint>)
    | EcFixedPoint(fixedPoint: Option<FixedPoint>)
    | Base(base: Option<BaseField>)
    | Scalar(scalar: Option<ScalarField>)
    | MerklePath(path: Option<MerkleAuthPath>)
    | Uint32(u32: Option<U32>)
    | Uint64(u64: Option<U64>)

  /** The witness type declared by the compiled zkas binary: the eight types
      a witness can have, and any other zkas variable type by its code. */
  datatype VarType =
    | EcPoint
    | EcNiPoint
    | EcFixedPoint
    | Base
    | Scalar
    | MerklePath
    | Uint32
    | Uint64
    | OtherType(code: nat)

  /** A zkas opcode; only `ConstrainInstance` is told apart here, every other
      opcode is identified by its byte code. */
  datatype Opcode = ConstrainInstance | Other(code: nat)

  /** The circuit: supplied witnesses and the opcode program, each opcode with
      its (abstract) arguments. */
  datatype ZkCircuit<Args> = ZkCircuit(witnesses: seq<Witness>, opcodes: seq<(Opcode, Args)>)

  /** The compiled binary: the declared witness types, in slot order. */
  datatype ZkBinary = ZkBinary(witnesses: seq<VarType>)

  datatype Error = WrongWitnessType(index: nat) | IncorrectPublicInputsCount

  function Min(a: nat, b: nat): nat { if a <= b then a else b }

  // ---------------------------------------------------------------------
  // Type check

  /** The per-slot comparison of `zkas_type_checks`: a match on the witness
      variant, comparing the declared type with the same-named tag. */
  predicate IsPass(w: Witness, t: VarType)
  {
    match w
    case EcPoint(_) => t == VarType.EcPoint
    case EcNiPoint(_) => t == VarType.EcNiPoint
    case EcFixedPoint(_) => t == VarType.EcFixedPoint
    case Base(_) => t == VarType.Base
    case Scalar(_) => t == VarType.Scalar
    case MerklePath(_) => t == VarType.MerklePath
    case Uint32(_) => t == VarType.Uint32
    case Uint64(_) => t == VarType.Uint64
  }

  /** Reference definition: the declared type a witness variant stands for. */
  function TagOf(w: Witness): VarType
  {
    if w.EcPoint? then VarType.EcPoint
    else if w.EcNiPoint? then VarType.EcNiPoint
    else if w.EcFixedPoint? then VarType.EcFixedPoint
    else if w.Base? then VarType.Base
    else if w.Scalar? then VarType.Scalar
    else if w.MerklePath? then VarType.MerklePath
    else if w.Uint32? then VarType.Uint32
    else VarType.Uint64
  }

  /** Two witnesses of the same variant, whatever their payloads. */
  predicate SameVariant(w1: Witness, w2: Witness)
  {
    TagOf(w1) == TagOf(w2)
  }

  /** Every slot below the length of the shorter sequence passes. */
  ghost predicate AllPass(ws: seq<Witness>, ts: seq<VarType>)
  {
    forall i :: 0 <= i < Min(|ws|, |ts|) ==> IsPass(ws[i], ts[i])
  }

  /** The least mismatching slot of the zipped sequences, if any. */
  function FirstMismatch(ws: seq<Witness>, ts: seq<VarType>): (r: Option<nat>)
    ensures r.None? <==> AllPass(ws, ts)
    ensures r.Some? ==>
      && r.value < Min(|ws|, |ts|)
      && !IsPass(ws[r.value], ts[r.value])
      && forall j :: 0 <= j < r.value ==> IsPass(ws[j], ts[j])
  {
    if |ws| == 0 || |ts| == 0 then None
    else if !IsPass(ws[0], ts[0]) then Some(0)
    else
      var rest := FirstMismatch(ws[1..], ts[1..]);
      assert forall i :: 1 <= i < Min(|ws|, |ts|) ==> ws[1..][i - 1] == ws[i] && ts[1..][i - 1] == ts[i];
      match rest
      case None => None
      case Some(k) => Some(k + 1)
  }

  // ---------------------------------------------------------------------
  // Instance count

  /** The number of `ConstrainInstance` opcodes in the program. */
  function InstancesCount<Args>(ops: seq<(Opcode, Args)>): nat
  {
    if |ops| == 0 then 0
    else InstancesCount(ops[..|ops| - 1]) + (if ops[|ops| - 1].0 == ConstrainInstance then 1 else 0)
  }

  /** Reference definition: the positions of the program that hold a
      `ConstrainInstance` opcode. */
  function ConstrainPositions<Args>(ops: seq<(Opcode, Args)>): set<nat>
  {
    set i | 0 <= i < |ops| && ops[i].0 == ConstrainInstance
  }

  // ---------------------------------------------------------------------
  // The whole gate

  /** The outcome `zkas_type_checks` returns for the given inputs. */
  function TypeChecks<Args>(circuit: ZkCircuit<Args>, binary: ZkBinary, instancesLen: nat): Result<(), Error>
  {
    match FirstMismatch(circuit.witnesses, binary.witnesses)
    case Some(i) => Failure(WrongWitnessType(i))
    case None =>
      if instancesLen != InstancesCount(circuit.opcodes) then Failure(IncorrectPublicInputsCount)
      else Success(())
  }

  /** `zkas_type_checks`: walk the zipped witnesses and declared types, fail
      on the first mismatch, then count `ConstrainInstance` opcodes and
      compare with the number of supplied instances. */
  method ZkasTypeChecks<Args>(circuit: ZkCircuit<Args>, binary: ZkBinary, instances: seq<BaseField>)
    returns (r: Result<(), Error>)
    ensures r == TypeChecks(circuit, binary, |instances|)
  {
    var ws, ts := circuit.witnesses, binary.witnesses;
    var n := Min(|ws|, |ts|);
    for i := 0 to n
      invariant forall j :: 0 <= j < i ==> IsPass(ws[j], ts[j])
    {
      if !IsPass(ws[i], ts[i]) {
        return Failure(WrongWitnessType(i));
      }
    }

    var instancesCount := 0;
    var ops := circuit.opcodes;
    for k := 0 to |ops|
      invariant instancesCount == InstancesCount(ops[..k])
    {
      assert ops[..k + 1][..k] == ops[..k];
      if ops[k].0 == ConstrainInstance {
        instancesCount := instancesCount + 1;
      }
    }
    assert ops[..|ops|] == ops;
    if |instances| != instancesCount {
      return Failure(IncorrectPublicInputsCount);
    }
    return Success(());
  }

  // ---------------------------------------------------------------------
  // Properties of the type check

  /** A slot passes exactly when the witness variant is the declared type:
      `EcPoint` never matches `EcNiPoint`, `Base` never matches `Scalar`. */
  lemma IsPassIffTag(w: Witness, t: VarType, t': VarType)
    ensures IsPass(w, t) <==> TagOf(w) == t
    ensures IsPass(w, t) && IsPass(w, t') ==> t == t'
  {
  }

  /** Payloads, known or unknown, never change the outcome: only variants
      are compared. */
  lemma {:induction false} PayloadIrrelevant<Args>(c1: ZkCircuit<Args>, c2: ZkCircuit<Args>, binary: ZkBinary, n: nat)
    requires |c1.witnesses| == |c2.witnesses| && c1.opcodes == c2.opcodes
    requires forall i :: 0 <= i < |c1.witnesses| ==> SameVariant(c1.witnesses[i], c2.witnesses[i])
    ensures TypeChecks(c1, binary, n) == TypeChecks(c2, binary, n)
  {
    FirstMismatchPayloadIrrelevant(c1.witnesses, c2.witnesses, binary.witnesses);
  }

  lemma {:induction false} FirstMismatchPayloadIrrelevant(ws1: seq<Witness>, ws2: seq<Witness>, ts: seq<VarType>)
    requires |ws1| == |ws2|
    requires forall i :: 0 <= i < |ws1| ==> SameVariant(ws1[i], ws2[i])
    ensures FirstMismatch(ws1, ts) == FirstMismatch(ws2, ts)
  {
    if |ws1| > 0 && |ts| > 0 {
      IsPassIffTag(ws1[0], ts[0], ts[0]);
      IsPassIffTag(ws2[0], ts[0], ts[0]);
      FirstMismatchPayloadIrrelevant(ws1[1..], ws2[1..], ts[1..]);
    }
  }

  /** Pairing stops at the shorter sequence: extra witnesses past the last
      declared type are never inspected. */
  lemma {:induction false} ExtraWitnessesIgnored(ws: seq<Witness>, ts: seq<VarType>, extra: seq<Witness>)
    requires |ts| <= |ws|
    ensures FirstMismatch(ws + extra, ts) == FirstMismatch(ws, ts)
  {
    if |ts| > 0 {
      assert (ws + extra)[1..] == ws[1..] + extra;
      ExtraWitnessesIgnored(ws[1..], ts[1..], extra);
    }
  }

  /** Pairing stops at the shorter sequence: extra declared types past the
      last witness are never inspected. */
  lemma {:induction false} ExtraDeclaredTypesIgnored(ws: seq<Witness>, ts: seq<VarType>, extra: seq<VarType>)
    requires |ws| <= |ts|
    ensures FirstMismatch(ws, ts + extra) == FirstMismatch(ws, ts)
  {
    if |ws| > 0 {
      assert (ts + extra)[1..] == ts[1..] + extra;
      ExtraDeclaredTypesIgnored(ws[1..], ts[1..], extra);
    }
  }

  /** The gate accepts exactly when every zipped slot passes and the number
      of instances is the number of `ConstrainInstance` opcodes. */
  lemma TypeChecksOkIff<Args>(circuit: ZkCircuit<Args>, binary: ZkBinary, n: nat)
    ensures TypeChecks(circuit, binary, n).Success? <==>
      AllPass(circuit.witnesses, binary.witnesses) && n == InstancesCount(circuit.opcodes)
  {
  }

  /** A type error names the least mismatching slot. */
  lemma WrongWitnessTypeIff<Args>(circuit: ZkCircuit<Args>, binary: ZkBinary, n: nat, i: nat)
    ensures TypeChecks(circuit, binary, n) == Failure(WrongWitnessType(i)) <==>
      && i < Min(|circuit.witnesses|, |binary.witnesses|)
      && !IsPass(circuit.witnesses[i], binary.witnesses[i])
      && forall j :: 0 <= j < i ==> IsPass(circuit.witnesses[j], binary.witnesses[j])
  {
    var ws, ts := circuit.witnesses, binary.witnesses;
    var m := FirstMismatch(ws, ts);
    if m.Some? && m.value != i && i < Min(|ws|, |ts|) && !IsPass(ws[i], ts[i]) {
      assert m.value < i ==> !IsPass(ws[m.value], ts[m.value]);
    }
  }

  /** A count error is reported only when the type check passed: a type
      error always takes precedence. */
  lemma IncorrectCountIff<Args>(circuit: ZkCircuit<Args>, binary: ZkBinary, n: nat)
    ensures TypeChecks(circuit, binary, n) == Failure(IncorrectPublicInputsCount) <==>
      AllPass(circuit.witnesses, binary.witnesses) && n != InstancesCount(circuit.opcodes)
  {
  }

  // ---------------------------------------------------------------------
  // Properties of the instance count

  lemma {:induction false} InstancesCountAppend<Args>(a: seq<(Opcode, Args)>, b: seq<(Opcode, Args)>)
    ensures InstancesCount(a + b) == InstancesCount(a) + InstancesCount(b)
  {
    if |b| > 0 {
      assert (a + b)[..|a + b| - 1] == a + b[..|b| - 1];
      InstancesCountAppend(a, b[..|b| - 1]);
    } else {
      assert a + b == a;
    }
  }

  /** The count is the number of positions holding `ConstrainInstance`. */
  lemma {:induction false} InstancesCountIsPositions<Args>(ops: seq<(Opcode, Args)>)
    ensures InstancesCount(ops) == |ConstrainPositions(ops)|
  {
    if |ops| > 0 {
      var n := |ops| - 1;
      InstancesCountIsPositions(ops[..n]);
      var prefix := ConstrainPositions(ops[..n]);
      if ops[n].0 == ConstrainInstance {
        assert ConstrainPositions(ops) == prefix + {n};
      } else {
        assert ConstrainPositions(ops) == prefix;
      }
    } else {
      assert ConstrainPositions(ops) == {};
    }
  }

  /** Inserting (or, read backwards, removing) an opcode of another kind
      leaves the count unchanged. */
  lemma InstancesCountInsertOther<Args>(a: seq<(Opcode, Args)>, op: (Opcode, Args), b: seq<(Opcode, Args)>)
    requires op.0 != ConstrainInstance
    ensures InstancesCount(a + [op] + b) == InstancesCount(a + b)
  {
    InstancesCountAppend(a + [op], b);
    InstancesCountAppend(a, [op]);
    InstancesCountAppend(a, b);
    assert [op][..0] == [];
  }

  /** Reordering the program leaves the count unchanged. */
  lemma {:induction false} InstancesCountPermutation<Args>(a: seq<(Opcode, Args)>, b: seq<(Opcode, Args)>)
    requires multiset(a) == multiset(b)
    ensures InstancesCount(a) == InstancesCount(b)
    decreases |a|
  {
    if |a| == 0 {
      assert |b| == |multiset(b)| == 0;
    } else {
      var n := |a| - 1;
      var x := a[n];
      assert a == a[..n] + [x];
      assert x in multiset(b);
      var k :| 0 <= k < |b| && b[k] == x;
      assert b == b[..k] + [x] + b[k + 1..];
      var rest := b[..k] + b[k + 1..];
      assert multiset(a[..n]) == multiset(rest) by {
        assert multiset(a) == multiset(a[..n]) + multiset{x};
        assert multiset(b) == multiset(b[..k]) + multiset{x} + multiset(b[k + 1..]);
        assert multiset(rest) == multiset(b[..k]) + multiset(b[k + 1..]);
        assert multiset(a[..n]) == multiset(a) - multiset{x};
        assert multiset(rest) == multiset(b) - multiset{x};
      }
      InstancesCountPermutation(a[..n], rest);
      InstancesCountAppend(a[..n], [x]);
      InstancesCountAppend(b[..k] + [x], b[k + 1..]);
      InstancesCountAppend(b[..k], [x]);
      InstancesCountAppend(b[..k], b[k + 1..]);
      assert [x][..0] == [];
    }
  }

  // ---------------------------------------------------------------------
  // Concrete scenarios

  lemma ScenarioAccept<Args>(x: Option<BaseField>, p: Option<CurvePoint>, path: Option<MerkleAuthPath>)
    ensures TypeChecks<Args>(ZkCircuit([Witness.Base(x), Witness.EcPoint(p), Witness.MerklePath(path)], []),
                       ZkBinary([VarType.Base, VarType.EcPoint, VarType.MerklePath]), 0)
            == Success(())
  {
    var c: ZkCircuit<Args> := ZkCircuit([Witness.Base(x), Witness.EcPoint(p), Witness.MerklePath(path)], []);
    assert AllPass(c.witnesses, [VarType.Base, VarType.EcPoint, VarType.MerklePath]);
  }

  lemma ScenarioWrongType<Args>(x: Option<BaseField>, p: Option<CurvePoint>)
    ensures TypeChecks<Args>(ZkCircuit([Witness.Base(x), Witness.EcPoint(p)], []),
                       ZkBinary([VarType.Base, VarType.Scalar]), 0)
            == Failure(WrongWitnessType(1))
  {
    var c: ZkCircuit<Args> := ZkCircuit([Witness.Base(x), Witness.EcPoint(p)], []);
    WrongWitnessTypeIff(c, ZkBinary([VarType.Base, VarType.Scalar]), 0, 1);
  }

  /** A slot declaring a variable type no witness has rejects every witness. */
  lemma ScenarioOtherTypeRejected<Args>(w: Witness, code: nat, n: nat)
    ensures TypeChecks<Args>(ZkCircuit([w], []), ZkBinary([VarType.OtherType(code)]), n)
            == Failure(WrongWitnessType(0))
  {
  }

  lemma ScenarioCountMismatch(args: seq<int>, z: BaseField)
    requires |args| == 5
    ensures TypeChecks(ZkCircuit([], [(Other(1), args[0]), (ConstrainInstance, args[1]), (Other(2), args[2]),
                                      (ConstrainInstance, args[3]), (Other(3), args[4])]),
                       ZkBinary([]), |[z]|)
            == Failure(IncorrectPublicInputsCount)
    ensures TypeChecks(ZkCircuit([], [(Other(1), args[0]), (ConstrainInstance, args[1]), (Other(2), args[2]),
                                      (ConstrainInstance, args[3]), (Other(3), args[4])]),
                       ZkBinary([]), |[z, z]|)
            == Success(())
  {
    var ops := [(Other(1), args[0]), (ConstrainInstance, args[1]), (Other(2), args[2]),
                (ConstrainInstance, args[3]), (Other(3), args[4])];
    assert ops[..4][..3] == ops[..3] && ops[..3][..2] == ops[..2] && ops[..2][..1] == ops[..1];
    assert InstancesCount(ops[..1]) == 0;
    assert InstancesCount(ops[..2]) == 1;
    assert InstancesCount(ops[..3]) == 1;
    assert InstancesCount(ops[..4]) == 2;
    assert InstancesCount(ops) == 2;
  }

  lemma ScenarioNoInstances<Args>(ops: seq<(Opcode, Args)>, n: nat)
    requires forall i :: 0 <= i < |ops| ==> ops[i].0 != ConstrainInstance
    ensures TypeChecks(ZkCircuit([], ops), ZkBinary([]), 0) == Success(())
    ensures n != 0 ==> TypeChecks(ZkCircuit([], ops), ZkBinary([]), n) == Failure(IncorrectPublicInputsCount)
  {
    InstancesCountIsPositions(ops);
    assert ConstrainPositions(ops) == {};
  }

  // ---------------------------------------------------------------------
  // Debug witness export

  /** The JSON values the exporter builds (the serialiser is not modelled). */
  datatype Json = JsonStr(str: string) | JsonArray(items: seq<Json>) | JsonObj(fields: map<string, Json>)

  /** `unimplemented!()`: the export aborts on a witness it cannot render. */
  datatype ExportError = Unimplemented

  /** The witness variants the exporter can render. */
  predicate Exportable(w: Witness)
  {
    w.Base? || w.Scalar?
  }

  /** The record exported for one witness, or `None` for an unsupported
      variant. `renderBase` and `renderScalar` stand for `{:?}`. */
  function WitnessRecord(w: Witness, renderBase: BaseField -> string, renderScalar: ScalarField -> string)
    : Option<map<string, Json>>
  {
    match w
    case Base(value) =>
      Some(if value.Some? then map["Base" := JsonStr(renderBase(value.value))] else map[])
    case Scalar(value) =>
      Some(if value.Some? then map["Scalar" := JsonStr(renderScalar(value.value))] else map[])
    case _ => None
  }

  /** The `witnesses` array: one object per witness, in order, or `None` as
      soon as one witness is unsupported. */
  function WitnessRecords(ws: seq<Witness>, renderBase: BaseField -> string, renderScalar: ScalarField -> string)
    : Option<seq<Json>>
  {
    if |ws| == 0 then Some([])
    else
      match WitnessRecords(ws[..|ws| - 1], renderBase, renderScalar)
      case None => None
      case Some(recs) =>
        match WitnessRecord(ws[|ws| - 1], renderBase, renderScalar)
        case None => None
        case Some(rec) => Some(recs + [JsonObj(rec)])
  }

  /** The `instances` array: the rendering of each public input, in order. */
  function InstanceStrings(publicInputs: seq<BaseField>, renderBase: BaseField -> string): seq<Json>
  {
    if |publicInputs| == 0 then []
    else InstanceStrings(publicInputs[..|publicInputs| - 1], renderBase)
         + [JsonStr(renderBase(publicInputs[|publicInputs| - 1]))]
  }

  /** The document `export_witness_json` writes, or the abort. */
  function WitnessDocument(ws: seq<Witness>, publicInputs: seq<BaseField>,
                           renderBase: BaseField -> string, renderScalar: ScalarField -> string)
    : Result<Json, ExportError>
  {
    match WitnessRecords(ws, renderBase, renderScalar)
    case None => Failure(Unimplemented)
    case Some(recs) =>
      Success(JsonObj(map["witnesses" := JsonArray(recs),
                          "instances" := JsonArray(InstanceStrings(publicInputs, renderBase))]))
  }

  /** `export_witness_json` up to formatting and the file write: builds the
      document with one loop over the witnesses and one over the instances. */
  method ExportWitnessJson(proverWitnesses: seq<Witness>, publicInputs: seq<BaseField>,
                           renderBase: BaseField -> string, renderScalar: ScalarField -> string)
    returns (r: Result<Json, ExportError>)
    ensures r == WitnessDocument(proverWitnesses, publicInputs, renderBase, renderScalar)
  {
    var witnesses: seq<Json> := [];
    for k := 0 to |proverWitnesses|
      invariant WitnessRecords(proverWitnesses[..k], renderBase, renderScalar) == Some(witnesses)
    {
      assert proverWitnesses[..k + 1][..k] == proverWitnesses[..k];
      var valueJson: map<string, Json> := map[];
      match proverWitnesses[k] {
        case Base(value) =>
          if value.Some? {
            valueJson := valueJson["Base" := JsonStr(renderBase(value.value))];
          }
        case Scalar(value) =>
          if value.Some? {
            valueJson := valueJson["Scalar" := JsonStr(renderScalar(value.value))];
          }
        case _ =>
          UnsupportedAborts(proverWitnesses, k, renderBase, renderScalar);
          return Failure(Unimplemented);
      }
      witnesses := witnesses + [JsonObj(valueJson)];
    }
    assert proverWitnesses[..|proverWitnesses|] == proverWitnesses;

    var instances: seq<Json> := [];
    for k := 0 to |publicInputs|
      invariant InstanceStrings(publicInputs[..k], renderBase) == instances
    {
      assert publicInputs[..k + 1][..k] == publicInputs[..k];
      instances := instances + [JsonStr(renderBase(publicInputs[k]))];
    }
    assert publicInputs[..|publicInputs|] == publicInputs;

    r := Success(JsonObj(map["witnesses" := JsonArray(witnesses), "instances" := JsonArray(instances)]));
  }

  /** The export succeeds exactly when every witness is `Base` or `Scalar`. */
  lemma {:induction false} WitnessRecordsSomeIff(ws: seq<Witness>, renderBase: BaseField -> string,
                                                 renderScalar: ScalarField -> string)
    ensures WitnessRecords(ws, renderBase, renderScalar).Some? <==>
      forall i :: 0 <= i < |ws| ==> Exportable(ws[i])
  {
    if |ws| > 0 {
      var n := |ws| - 1;
      WitnessRecordsSomeIff(ws[..n], renderBase, renderScalar);
      assert forall i :: 0 <= i < n ==> ws[..n][i] == ws[i];
    }
  }

  /** An unsupported witness anywhere aborts the whole export. */
  lemma UnsupportedAborts(ws: seq<Witness>, k: nat, renderBase: BaseField -> string,
                          renderScalar: ScalarField -> string)
    requires k < |ws| && !Exportable(ws[k])
    ensures WitnessRecords(ws, renderBase, renderScalar) == None
  {
    WitnessRecordsSomeIff(ws, renderBase, renderScalar);
  }

  /** On success there is exactly one record per witness, in order: a known
      `Base` or `Scalar` value gives a single key named after the variant and
      holding its rendering, an unknown value gives an empty record. */
  lemma {:induction false} WitnessRecordsContents(ws: seq<Witness>, renderBase: BaseField -> string,
                                                  renderScalar: ScalarField -> string)
    requires WitnessRecords(ws, renderBase, renderScalar).Some?
    ensures var recs := WitnessRecords(ws, renderBase, renderScalar).value;
      && |recs| == |ws|
      && forall i :: 0 <= i < |ws| ==>
        && recs[i].JsonObj?
        && (ws[i].Base? && ws[i].base.Some? ==>
              recs[i].fields == map["Base" := JsonStr(renderBase(ws[i].base.value))])
        && (ws[i].Scalar? && ws[i].scalar.Some? ==>
              recs[i].fields == map["Scalar" := JsonStr(renderScalar(ws[i].scalar.value))])
        && (ws[i] == Witness.Base(None) || ws[i] == Witness.Scalar(None) ==> recs[i].fields == map[])
  {
    if |ws| > 0 {
      var n := |ws| - 1;
      WitnessRecordsContents(ws[..n], renderBase, renderScalar);
      assert forall i :: 0 <= i < n ==> ws[..n][i] == ws[i];
    }
  }

  /** The instances list has one rendering per public input, in order. */
  lemma {:induction false} InstanceStringsContents(publicInputs: seq<BaseField>, renderBase: BaseField -> string)
    ensures |InstanceStrings(publicInputs, renderBase)| == |publicInputs|
    ensures forall i :: 0 <= i < |publicInputs| ==>
      InstanceStrings(publicInputs, renderBase)[i] == JsonStr(renderBase(publicInputs[i]))
  {
    if |publicInputs| > 0 {
      var n := |publicInputs| - 1;
      InstanceStringsContents(publicInputs[..n], renderBase);
      assert forall i :: 0 <= i < n ==> publicInputs[..n][i] == publicInputs[i];
    }
  }

  /** Exporting `[Base(x), Scalar(y)]` with instances `[z]`. */
  lemma ScenarioExport(x: BaseField, y: ScalarField, z: BaseField,
                       renderBase: BaseField -> string, renderScalar: ScalarField -> string)
    ensures WitnessDocument([Witness.Base(Some(x)), Witness.Scalar(Some(y))], [z], renderBase, renderScalar)
      == Success(JsonObj(map[
           "witnesses" := JsonArray([JsonObj(map["Base" := JsonStr(renderBase(x))]),
                                     JsonObj(map["Scalar" := JsonStr(renderScalar(y))])]),
           "instances" := JsonArray([JsonStr(renderBase(z))])]))
  {
    var ws := [Witness.Base(Some(x)), Witness.Scalar(Some(y))];
    var r0 := JsonObj(map["Base" := JsonStr(renderBase(x))]);
    var r1 := JsonObj(map["Scalar" := JsonStr(renderScalar(y))]);
    WitnessRecordsSomeIff(ws, renderBase, renderScalar);
    WitnessRecordsContents(ws, renderBase, renderScalar);
    assert WitnessRecords(ws, renderBase, renderScalar).value == [r0, r1];
    InstanceStringsContents([z], renderBase);
    assert InstanceStrings([z], renderBase) == [JsonStr(renderBase(z))];
  }
}
