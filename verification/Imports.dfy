/** Which SDK names the rendered types use, and which the import list brings in: two walks over
    one type language. */
module Imports {
  import opened Ir
  import opened Spec

  /** The SDK names a rendered type can use without a path. */
  datatype Name =
    | Symbol | Address | MuxedAddress | Bytes | BytesN | String | Timepoint | Duration | U256 | I256 | Vec | Map
    | Val | Error
    | Bn254G1Affine | Bn254G2Affine | Fr
    | Bls12381Fp | Bls12381Fp2 | Bls12381G1Affine | Bls12381G2Affine

  datatype Crypto = Crypto(bn254: bool, bls12381: bool) {
    predicate HasAny() { bn254 || bls12381 }
  }

  // ---------------------------------------------------------------------
  // Rendering
  // ---------------------------------------------------------------------

  /** A rendered type: an SDK name with its arguments, an SDK name with its path, a name that
      needs no import, or a standard type or tuple. */
  datatype Rendered =
    | Sdk(name: Name, args: seq<Rendered>)
    | SizedBytes(n: nat)
    | Path(name: Name)
    | Other(text: string)
    | Std(head: string, args: seq<Rendered>)

  function Uses(r: Rendered): set<Name> {
    match r
    case Sdk(name, args) => {name} + UsesAll(args)
    case SizedBytes(_) => {BytesN}
    case Path(_) => {}
    case Other(_) => {}
    case Std(_, args) => UsesAll(args)
  }

  function UsesAll(rs: seq<Rendered>): set<Name> {
    if rs == [] then {} else Uses(rs[0]) + UsesAll(rs[1..])
  }

  function GenerateTypeIdent(t: SpecType): Rendered {
    match t
    case TVal => Path(Val)
    case TSymbol => Sdk(Symbol, [])
    case TError => Path(Error)
    case TBytes => Sdk(Bytes, [])
    case TAddress => Sdk(Address, [])
    case TMuxedAddress => Sdk(MuxedAddress, [])
    case TString => Sdk(String, [])
    case TTimepoint => Sdk(Timepoint, [])
    case TDuration => Sdk(Duration, [])
    case TU256 => Sdk(U256, [])
    case TI256 => Sdk(I256, [])
    case TBytesN(n) => SizedBytes(n)
    case TVec(element) => Sdk(Vec, [GenerateTypeIdent(element)])
    case TMap(key, value) => Sdk(Map, [GenerateTypeIdent(key), GenerateTypeIdent(value)])
    case TOption(value) => Std("Option", [GenerateTypeIdent(value)])
    case TResult(ok, err) => Std("Result", [GenerateTypeIdent(ok), GenerateTypeIdent(err)])
    case TTuple(types) => Std("", GenerateAll(types))
    case TUdt(name) => Other(name)
    case TBool => Other("bool")
    case TVoid => Other("()")
    case TU32 => Other("u32")
    case TI32 => Other("i32")
    case TU64 => Other("u64")
    case TI64 => Other("i64")
    case TU128 => Other("u128")
    case TI128 => Other("i128")
  }

  function GenerateAll(types: seq<SpecType>): (r: seq<Rendered>)
    ensures |r| == |types|
  {
    if types == [] then [] else [GenerateTypeIdent(types[0])] + GenerateAll(types[1..])
  }

  function Lower(c: char): char { if 'A' <= c <= 'Z' then c - 'A' + 'a' else c }

  /** The parameter or field name mentions `fp2`, in any case. */
  predicate MentionsFp2(hint: Option<string>) {
    hint.Some? && exists i :: 0 <= i < |hint.value| && IsFp2At(hint.value, i)
  }

  predicate IsFp2At(w: string, i: nat) {
    i + 3 <= |w| && Lower(w[i]) == 'f' && Lower(w[i + 1]) == 'p' && w[i + 2] == '2'
  }

  function ResolveCryptoAlias(t: SpecType, crypto: Crypto, hint: Option<string>): Option<Name> {
    if t.TBytesN? && crypto.bn254 then
      if t.n == 64 then Some(Bn254G1Affine) else if t.n == 128 then Some(Bn254G2Affine) else None
    else if t.TBytesN? && crypto.bls12381 then
      if t.n == 48 then Some(Bls12381Fp)
      else if t.n == 96 then Some(if MentionsFp2(hint) then Bls12381Fp2 else Bls12381G1Affine)
      else if t.n == 192 then Some(Bls12381G2Affine)
      else None
    else if t.TU256? && (crypto.bn254 || crypto.bls12381) then Some(Fr)
    else None
  }

  function GenerateTypeIdentCrypto(t: SpecType, crypto: Crypto, hint: Option<string>): Rendered
    decreases t
  {
    var alias := ResolveCryptoAlias(t, crypto, hint);
    if alias.Some? then Sdk(alias.value, [])
    else
      match t
      case TVec(element) => Sdk(Vec, [GenerateTypeIdentCrypto(element, crypto, None)])
      case TMap(key, value) =>
        Sdk(Map, [GenerateTypeIdentCrypto(key, crypto, None), GenerateTypeIdentCrypto(value, crypto, None)])
      case TOption(value) => Std("Option", [GenerateTypeIdentCrypto(value, crypto, None)])
      case TResult(ok, err) =>
        Std("Result", [GenerateTypeIdentCrypto(ok, crypto, None), GenerateTypeIdentCrypto(err, crypto, None)])
      case TTuple(types) => Std("", GenerateAllCrypto(types, crypto))
      case _ => GenerateTypeIdent(t)
  }

  function GenerateAllCrypto(types: seq<SpecType>, crypto: Crypto): (r: seq<Rendered>)
    ensures |r| == |types|
    decreases types
  {
    if types == [] then []
    else [GenerateTypeIdentCrypto(types[0], crypto, None)] + GenerateAllCrypto(types[1..], crypto)
  }

  // ---------------------------------------------------------------------
  // Requesting
  // ---------------------------------------------------------------------

  /** The names of a sized byte array that an alias replaces, as the import walk decides it. */
  predicate IsAliased(n: nat, crypto: Crypto) {
    (crypto.bn254 && (n == 64 || n == 128)) || (crypto.bls12381 && (n == 48 || n == 96 || n == 192))
  }

  /** The names requested for a type. */
  function Requests(t: SpecType, crypto: Crypto): set<Name> {
    match t
    case TSymbol => {Symbol}
    case TAddress => {Address}
    case TMuxedAddress => {MuxedAddress}
    case TBytes => {Bytes}
    case TBytesN(n) => if IsAliased(n, crypto) then {} else {BytesN}
    case TString => {String}
    case TU256 => if crypto.HasAny() then {} else {U256}
    case TI256 => {I256}
    case TTimepoint => {Timepoint}
    case TDuration => {Duration}
    case TVec(element) => {Vec} + Requests(element, crypto)
    case TMap(key, value) => {Map} + Requests(key, crypto) + Requests(value, crypto)
    case TOption(value) => Requests(value, crypto)
    case TResult(ok, err) => Requests(ok, crypto) + Requests(err, crypto)
    case TTuple(types) => RequestsAll(types, crypto)
    case _ => {}
  }

  function RequestsAll(types: seq<SpecType>, crypto: Crypto): set<Name> {
    if types == [] then {} else Requests(types[0], crypto) + RequestsAll(types[1..], crypto)
  }

  class ImportNeeds {
    var symbol: bool
    var address: bool
    var muxedAddress: bool
    var bytes: bool
    var bytesN: bool
    var vecType: bool
    var mapType: bool
    var stringType: bool
    var timepoint: bool
    var duration: bool
    var u256: bool
    var i256: bool

    predicate Flag(name: Name)
      reads this
    {
      match name
      case Symbol => symbol
      case Address => address
      case MuxedAddress => muxedAddress
      case Bytes => bytes
      case BytesN => bytesN
      case String => stringType
      case Timepoint => timepoint
      case Duration => duration
      case U256 => u256
      case I256 => i256
      case Vec => vecType
      case Map => mapType
      case _ => false
    }

    /** The names whose flags are set. */
    function Requested(): set<Name>
      reads this
    {
      set name: Name | Flag(name)
    }

    constructor ()
      ensures Requested() == {}
    {
      symbol, address, muxedAddress, bytes, bytesN, vecType := false, false, false, false, false, false;
      mapType, stringType, timepoint, duration, u256, i256 := false, false, false, false, false, false;
    }

    method ScanTypeDef(t: SpecType, crypto: Crypto)
      modifies this
      ensures Requested() == old(Requested()) + Requests(t, crypto)
      decreases t
    {
      match t {
        case TVec(element) =>
          vecType := true;
          assert Requested() == old(Requested()) + {Vec};
          ScanTypeDef(element, crypto);
        case TMap(key, value) =>
          mapType := true;
          assert Requested() == old(Requested()) + {Map};
          ScanTypeDef(key, crypto);
          ScanTypeDef(value, crypto);
        case TOption(value) => ScanTypeDef(value, crypto);
        case TResult(ok, err) =>
          ScanTypeDef(ok, crypto);
          ScanTypeDef(err, crypto);
        case TTuple(types) => ScanTypeDefs(types, crypto);
        case _ => ScanLeaf(t, crypto);
      }
    }

    /** The arms without element types. */
    method ScanLeaf(t: SpecType, crypto: Crypto)
      requires !t.TVec? && !t.TMap? && !t.TOption? && !t.TResult? && !t.TTuple?
      modifies this
      ensures Requested() == old(Requested()) + Requests(t, crypto)
    {
      if t.TSymbol? {
        symbol := true;
      } else if t.TAddress? {
        address := true;
      } else if t.TMuxedAddress? {
        muxedAddress := true;
      } else if t.TBytes? {
        bytes := true;
      } else if t.TString? {
        stringType := true;
      } else if t.TI256? {
        i256 := true;
      } else {
        ScanRest(t, crypto);
      }
    }

    /** The arms a curve can change, and those of the time types. */
    method ScanRest(t: SpecType, crypto: Crypto)
      requires t.TBytesN? || t.TU256? || t.TTimepoint? || t.TDuration? || Requests(t, crypto) == {}
      modifies this
      ensures Requested() == old(Requested()) + Requests(t, crypto)
    {
      match t {
        case TBytesN(n) =>
          var isAliased := (crypto.bn254 && (n == 64 || n == 128))
            || (crypto.bls12381 && (n == 48 || n == 96 || n == 192));
          if !isAliased { bytesN := true; }
        case TU256 => if !crypto.HasAny() { u256 := true; }
        case TTimepoint => timepoint := true;
        case TDuration => duration := true;
        case _ =>
      }
    }

    /** The loop over a tuple's elements, or over the types of all signatures and fields. */
    method ScanTypeDefs(types: seq<SpecType>, crypto: Crypto)
      modifies this
      ensures Requested() == old(Requested()) + RequestsAll(types, crypto)
      decreases types
    {
      for i := 0 to |types|
        invariant Requested() + RequestsAll(types[i..], crypto) == old(Requested()) + RequestsAll(types, crypto)
      {
        assert types[i..][1..] == types[i + 1..];
        ScanTypeDef(types[i], crypto);
      }
    }

    /** The scan of all signatures and then of all type definitions. */
    method ScanContract(c: Contract, crypto: Crypto)
      modifies this
      ensures Requested() == old(Requested()) + ContractRequests(c, crypto)
    {
      ScanTypeDefs(Types(c.signatures), crypto);
      for i := 0 to |c.items|
        invariant Requested() + ItemsRequests(c.items[i..], crypto) == old(Requested()) + ContractRequests(c, crypto)
      {
        assert c.items[i..][1..] == c.items[i + 1..];
        ScanTypeDefs(ItemTypes(c.items[i]), crypto);
      }
    }
  }

  /** The names brought in beyond the main list, one `use` after the other. */
  function ExtraImports(crypto: Crypto): seq<Name> {
    (if crypto.bn254 then [Bn254G1Affine, Bn254G2Affine, Fr] else [])
    + (if crypto.bls12381 then [Bls12381Fp, Bls12381Fp2, Bls12381G1Affine, Bls12381G2Affine, Fr] else [])
  }

  // ---------------------------------------------------------------------
  // Agreement
  // ---------------------------------------------------------------------

  predicate IsAliasName(name: Name) {
    name == Bn254G1Affine || name == Bn254G2Affine || name == Fr || name == Bls12381Fp || name == Bls12381Fp2
    || name == Bls12381G1Affine || name == Bls12381G2Affine
  }

  /** The type holds a type without element types that passes the test. */
  predicate Holds(t: SpecType, test: SpecType -> bool) {
    match t
    case TVec(element) => Holds(element, test)
    case TMap(key, value) => Holds(key, test) || Holds(value, test)
    case TOption(value) => Holds(value, test)
    case TResult(ok, err) => Holds(ok, test) || Holds(err, test)
    case TTuple(types) => AnyHolds(types, test)
    case _ => test(t)
  }

  predicate AnyHolds(types: seq<SpecType>, test: SpecType -> bool) {
    types != [] && (Holds(types[0], test) || AnyHolds(types[1..], test))
  }

  lemma {:induction false} HoldsIfImplied(t: SpecType, p: SpecType -> bool, q: SpecType -> bool)
    requires forall leaf :: p(leaf) ==> q(leaf)
    ensures Holds(t, p) ==> Holds(t, q)
    decreases t
  {
    match t {
      case TVec(element) => HoldsIfImplied(element, p, q);
      case TMap(key, value) => HoldsIfImplied(key, p, q); HoldsIfImplied(value, p, q);
      case TOption(value) => HoldsIfImplied(value, p, q);
      case TResult(ok, err) => HoldsIfImplied(ok, p, q); HoldsIfImplied(err, p, q);
      case TTuple(types) => AnyHoldsIfImplied(types, p, q);
      case _ =>
    }
  }

  lemma {:induction false} AnyHoldsIfImplied(types: seq<SpecType>, p: SpecType -> bool, q: SpecType -> bool)
    requires forall leaf :: p(leaf) ==> q(leaf)
    ensures AnyHolds(types, p) ==> AnyHolds(types, q)
    decreases types
  {
    if types != [] {
      HoldsIfImplied(types[0], p, q);
      AnyHoldsIfImplied(types[1..], p, q);
    }
  }

  /** Rendering writes a sized byte array of this size out, rather than an alias. */
  predicate WritesBytesN(n: nat, crypto: Crypto) {
    ResolveCryptoAlias(TBytesN(n), crypto, None).None?
  }

  function Written(crypto: Crypto): SpecType -> bool { (t: SpecType) => t.TBytesN? && WritesBytesN(t.n, crypto) }

  function Unaliased(crypto: Crypto): SpecType -> bool { (t: SpecType) => t.TBytesN? && !IsAliased(t.n, crypto) }

  /** A name other than `BytesN` is used exactly when it is requested, or is an alias that is
      brought in. */
  predicate AgreesOn(name: Name, uses: set<Name>, requests: set<Name>, crypto: Crypto) {
    if IsAliasName(name) then (name in uses ==> name in ExtraImports(crypto)) && name !in requests
    else name in uses <==> name in requests
  }

  predicate AgreesButForBytesN(uses: set<Name>, requests: set<Name>, crypto: Crypto) {
    forall name: Name :: name != BytesN ==> AgreesOn(name, uses, requests, crypto)
  }

  lemma AgreementJoins(uses: set<Name>, requests: set<Name>, uses': set<Name>, requests': set<Name>, crypto: Crypto)
    requires AgreesButForBytesN(uses, requests, crypto) && AgreesButForBytesN(uses', requests', crypto)
    ensures AgreesButForBytesN(uses + uses', requests + requests', crypto)
  {
    forall name: Name | name != BytesN ensures AgreesOn(name, uses + uses', requests + requests', crypto) {
      assert AgreesOn(name, uses, requests, crypto) && AgreesOn(name, uses', requests', crypto);
    }
  }

  /** What the two walks have to do with each other on one type. */
  ghost predicate Related(t: SpecType, uses: set<Name>, crypto: Crypto) {
    && AgreesButForBytesN(uses, Requests(t, crypto), crypto)
    && (BytesN in uses <==> Holds(t, Written(crypto)))
    && (BytesN in Requests(t, crypto) <==> Holds(t, Unaliased(crypto)))
  }

  ghost predicate AllRelated(types: seq<SpecType>, uses: set<Name>, crypto: Crypto) {
    && AgreesButForBytesN(uses, RequestsAll(types, crypto), crypto)
    && (BytesN in uses <==> AnyHolds(types, Written(crypto)))
    && (BytesN in RequestsAll(types, crypto) <==> AnyHolds(types, Unaliased(crypto)))
  }

  predicate IsLeaf(t: SpecType) { !t.TVec? && !t.TMap? && !t.TOption? && !t.TResult? && !t.TTuple? }

  lemma LeafRelated(t: SpecType, crypto: Crypto, hint: Option<string>)
    requires IsLeaf(t)
    ensures Related(t, Uses(GenerateTypeIdentCrypto(t, crypto, hint)), crypto)
  {
    if t.TBytesN? {
      BytesNRelated(t.n, crypto, hint);
    } else if t.TU256? {
      U256Related(crypto, hint);
    } else {
      PlainLeaf(t, crypto, hint);
    }
  }

  /** A leaf no alias touches uses what it requests. */
  lemma PlainLeaf(t: SpecType, crypto: Crypto, hint: Option<string>)
    requires IsLeaf(t) && !t.TBytesN? && !t.TU256?
    ensures Uses(GenerateTypeIdentCrypto(t, crypto, hint)) == Requests(t, crypto)
    ensures forall name: Name :: IsAliasName(name) || name == BytesN ==> name !in Requests(t, crypto)
  {
  }

  lemma U256Related(crypto: Crypto, hint: Option<string>)
    ensures Related(TU256, Uses(GenerateTypeIdentCrypto(TU256, crypto, hint)), crypto)
  {
  }

  lemma BytesNRelated(n: nat, crypto: Crypto, hint: Option<string>)
    ensures Related(TBytesN(n), Uses(GenerateTypeIdentCrypto(TBytesN(n), crypto, hint)), crypto)
  {
    var alias := ResolveCryptoAlias(TBytesN(n), crypto, hint);
    if alias.Some? {
      AliasIsImported(n, crypto, hint);
      AliasAgrees(alias.value, crypto);
      assert Uses(Sdk(alias.value, [])) == {alias.value};
    }
  }

  lemma AliasIsImported(n: nat, crypto: Crypto, hint: Option<string>)
    ensures var alias := ResolveCryptoAlias(TBytesN(n), crypto, hint);
            alias.Some? ==>
              alias.value in ExtraImports(crypto) && IsAliasName(alias.value)
              && IsAliased(n, crypto) && !WritesBytesN(n, crypto)
  {
  }

  lemma AliasAgrees(alias: Name, crypto: Crypto)
    requires IsAliasName(alias) && alias in ExtraImports(crypto)
    ensures AgreesButForBytesN({alias}, {}, crypto)
  {
  }

  /** The types a compound type is made of, and the name it adds of its own. */
  function Elements(t: SpecType): (types: seq<SpecType>)
    ensures forall i :: 0 <= i < |types| ==> types[i] < t
  {
    match t
    case TVec(element) => [element]
    case TMap(key, value) => [key, value]
    case TOption(value) => [value]
    case TResult(ok, err) => [ok, err]
    case TTuple(types) => types
    case _ => []
  }

  function Own(t: SpecType): set<Name> { if t.TVec? then {Vec} else if t.TMap? then {Map} else {} }

  lemma OneOfAll(a: SpecType, crypto: Crypto, test: SpecType -> bool)
    ensures RequestsAll([a], crypto) == Requests(a, crypto)
    ensures GenerateAllCrypto([a], crypto) == [GenerateTypeIdentCrypto(a, crypto, None)]
    ensures AnyHolds([a], test) == Holds(a, test)
  {
    assert [a][1..] == [];
    assert !AnyHolds([], test);
  }

  lemma TwoOfAll(a: SpecType, b: SpecType, crypto: Crypto, test: SpecType -> bool)
    ensures RequestsAll([a, b], crypto) == Requests(a, crypto) + Requests(b, crypto)
    ensures GenerateAllCrypto([a, b], crypto)
            == [GenerateTypeIdentCrypto(a, crypto, None), GenerateTypeIdentCrypto(b, crypto, None)]
    ensures AnyHolds([a, b], test) == (Holds(a, test) || Holds(b, test))
  {
    assert [a, b][1..] == [b];
    OneOfAll(b, crypto, test);
  }

  /** A compound type is rendered from its elements, and requested with them. */
  lemma CompoundUses(t: SpecType, crypto: Crypto, hint: Option<string>)
    requires !IsLeaf(t)
    ensures Uses(GenerateTypeIdentCrypto(t, crypto, hint)) == Own(t) + UsesAll(GenerateAllCrypto(Elements(t), crypto))
  {
    CompoundRendered(t, crypto, hint);
    var types := Elements(t);
    if t.TTuple? {
    } else if |types| == 1 {
      OneOfAll(types[0], crypto, leaf => true);
    } else {
      TwoOfAll(types[0], types[1], crypto, leaf => true);
    }
  }

  lemma CompoundRendered(t: SpecType, crypto: Crypto, hint: Option<string>)
    requires !IsLeaf(t)
    ensures var r := GenerateTypeIdentCrypto(t, crypto, hint);
            && (t.TVec? || t.TMap? ==> r.Sdk? && Own(t) == {r.name})
            && (!t.TVec? && !t.TMap? ==> r.Std? && Own(t) == {})
            && r.args == if t.TTuple? then GenerateAllCrypto(t.types, crypto) else
                 seq(|Elements(t)|, i requires 0 <= i < |Elements(t)| => GenerateTypeIdentCrypto(Elements(t)[i], crypto, None))
  {
  }

  lemma CompoundRequests(t: SpecType, crypto: Crypto, test: SpecType -> bool)
    requires !IsLeaf(t)
    ensures Requests(t, crypto) == Own(t) + RequestsAll(Elements(t), crypto)
    ensures Holds(t, test) == AnyHolds(Elements(t), test)
  {
    var types := Elements(t);
    if t.TTuple? {
    } else if |types| == 1 {
      OneOfAll(types[0], crypto, test);
    } else {
      TwoOfAll(types[0], types[1], crypto, test);
    }
  }

  lemma CompoundRelated(t: SpecType, uses: set<Name>, crypto: Crypto)
    requires !IsLeaf(t) && AllRelated(Elements(t), uses, crypto)
    ensures Related(t, Own(t) + uses, crypto)
  {
    OwnAgrees(t, crypto);
    AgreementJoins(Own(t), Own(t), uses, RequestsAll(Elements(t), crypto), crypto);
    CompoundRequests(t, crypto, Written(crypto));
    CompoundRequests(t, crypto, Unaliased(crypto));
  }

  lemma OwnAgrees(t: SpecType, crypto: Crypto)
    ensures AgreesButForBytesN(Own(t), Own(t), crypto) && BytesN !in Own(t)
  {
  }

  lemma {:induction false} TypeRelated(t: SpecType, crypto: Crypto, hint: Option<string>)
    ensures Related(t, Uses(GenerateTypeIdentCrypto(t, crypto, hint)), crypto)
    decreases t, 1 + |Elements(t)|
  {
    if IsLeaf(t) {
      LeafRelated(t, crypto, hint);
    } else {
      var types := Elements(t);
      TypesRelated(types, t, crypto);
      CompoundUses(t, crypto, hint);
      CompoundRelated(t, UsesAll(GenerateAllCrypto(types, crypto)), crypto);
    }
  }

  lemma {:induction false} TypesRelated(types: seq<SpecType>, whole: SpecType, crypto: Crypto)
    requires forall i :: 0 <= i < |types| ==> types[i] < whole
    ensures AllRelated(types, UsesAll(GenerateAllCrypto(types, crypto)), crypto)
    decreases whole, |types|
  {
    if types != [] {
      TypeRelated(types[0], crypto, None);
      TypesRelated(types[1..], whole, crypto);
      var first := GenerateTypeIdentCrypto(types[0], crypto, None);
      var rest := GenerateAllCrypto(types[1..], crypto);
      assert ([first] + rest)[1..] == rest;
      AgreementJoins(Uses(first), Requests(types[0], crypto), UsesAll(rest), RequestsAll(types[1..], crypto), crypto);
    }
  }

  // ---------------------------------------------------------------------
  // Plain rendering
  // ---------------------------------------------------------------------

  /** Type definitions are first rendered with full paths, which are then taken off. */
  function StripPaths(r: Rendered): Rendered {
    match r
    case Path(name) => Sdk(name, [])
    case Sdk(name, args) => Sdk(name, StripAll(args))
    case Std(head, args) => Std(head, StripAll(args))
    case _ => r
  }

  function StripAll(rs: seq<Rendered>): (r: seq<Rendered>)
    ensures |r| == |rs|
  {
    if rs == [] then [] else [StripPaths(rs[0])] + StripAll(rs[1..])
  }

  function GeneratePlain(t: SpecType): Rendered { StripPaths(GenerateTypeIdent(t)) }

  const NO_CURVES := Crypto(false, false)

  function IsBytesN(): SpecType -> bool { (t: SpecType) => t.TBytesN? }

  function Is(leaf: SpecType): SpecType -> bool { (t: SpecType) => t == leaf }

  /** The names that are requested for no type. */
  predicate BareOf(t: SpecType, name: Name) {
    (name == Val && Holds(t, Is(TVal))) || (name == Error && Holds(t, Is(TError)))
  }

  predicate BareIn(types: seq<SpecType>, name: Name) {
    (name == Val && AnyHolds(types, Is(TVal))) || (name == Error && AnyHolds(types, Is(TError)))
  }

  function BareAll(types: seq<SpecType>): set<Name> {
    (if AnyHolds(types, Is(TVal)) then {Val} else {}) + (if AnyHolds(types, Is(TError)) then {Error} else {})
  }

  function PlainTokens(types: seq<SpecType>): seq<Rendered> { StripAll(GenerateAll(types)) }

  /** The names that plainly rendered types use. */
  function PlainNames(types: seq<SpecType>): set<Name> { RequestsAll(types, NO_CURVES) + BareAll(types) }

  /** Plain rendering uses what would be requested without curves, and bare `Val` and `Error`. */
  lemma {:induction false} PlainUses(t: SpecType, name: Name)
    ensures name in Uses(GeneratePlain(t)) <==> name in Requests(t, NO_CURVES) || BareOf(t, name)
    decreases t, 1 + |Elements(t)|
  {
    if IsLeaf(t) {
      PlainLeafUses(t, name);
    } else {
      PlainUsesAll(Elements(t), t, name);
      PlainCompoundUses(t);
      PlainCompoundNames(t, name);
    }
  }

  lemma PlainLeafUses(t: SpecType, name: Name)
    requires IsLeaf(t)
    ensures name in Uses(GeneratePlain(t)) <==> name in Requests(t, NO_CURVES) || BareOf(t, name)
  {
    BareLeaf(t, name);
    if t.TVal? || t.TError? { BareLeafUses(t); } else { NamedLeafUses(t); }
  }

  lemma BareLeaf(t: SpecType, name: Name)
    requires IsLeaf(t)
    ensures BareOf(t, name) <==> (t.TVal? && name == Val) || (t.TError? && name == Error)
  {
    LeafIs(t, TVal);
    LeafIs(t, TError);
  }

  lemma LeafIs(t: SpecType, leaf: SpecType)
    requires IsLeaf(t)
    ensures Holds(t, Is(leaf)) == (t == leaf)
  {
  }

  lemma BareLeafUses(t: SpecType)
    requires t.TVal? || t.TError?
    ensures Uses(GeneratePlain(t)) == (if t.TVal? then {Val} else {Error}) && Requests(t, NO_CURVES) == {}
  {
    var name := if t.TVal? then Val else Error;
    assert GeneratePlain(t) == Sdk(name, []);
    OneName(name);
  }

  lemma OneName(name: Name)
    ensures Uses(Sdk(name, [])) == {name}
  {
  }

  lemma NamedLeafUses(t: SpecType)
    requires IsLeaf(t) && !t.TVal? && !t.TError?
    ensures Uses(GeneratePlain(t)) == Requests(t, NO_CURVES)
  {
  }

  lemma PlainCompoundNames(t: SpecType, name: Name)
    requires !IsLeaf(t)
    ensures Requests(t, NO_CURVES) == Own(t) + RequestsAll(Elements(t), NO_CURVES)
    ensures BareOf(t, name) == BareIn(Elements(t), name)
  {
    CompoundRequests(t, NO_CURVES, Is(TVal));
    CompoundRequests(t, NO_CURVES, Is(TError));
  }

  lemma PlainCompoundUses(t: SpecType)
    requires !IsLeaf(t)
    ensures Uses(GeneratePlain(t)) == Own(t) + UsesAll(PlainTokens(Elements(t)))
  {
    PlainCompoundRendered(t);
  }

  lemma PlainCompoundRendered(t: SpecType)
    requires !IsLeaf(t)
    ensures var r := GenerateTypeIdent(t);
            && (t.TVec? || t.TMap? ==> r.Sdk? && Own(t) == {r.name})
            && (!t.TVec? && !t.TMap? ==> r.Std? && Own(t) == {})
            && r.args == GenerateAll(Elements(t))
  {
    var types := Elements(t);
    if t.TTuple? {
    } else if |types| == 1 {
      PlainOne(types[0]);
    } else {
      PlainTwo(types[0], types[1]);
    }
  }

  lemma PlainOne(a: SpecType)
    ensures GenerateAll([a]) == [GenerateTypeIdent(a)]
  {
    assert [a][1..] == [];
  }

  lemma PlainTwo(a: SpecType, b: SpecType)
    ensures GenerateAll([a, b]) == [GenerateTypeIdent(a), GenerateTypeIdent(b)]
  {
    assert [a, b][1..] == [b];
    PlainOne(b);
  }

  lemma {:induction false} PlainUsesAll(types: seq<SpecType>, whole: SpecType, name: Name)
    requires forall i :: 0 <= i < |types| ==> types[i] < whole
    ensures name in UsesAll(PlainTokens(types)) <==> name in RequestsAll(types, NO_CURVES) || BareIn(types, name)
    decreases whole, |types|
  {
    if types != [] {
      PlainUses(types[0], name);
      PlainUsesAll(types[1..], whole, name);
      PlainTokensFirst(types);
      BareFirst(types, name);
      RequestsFirst(types, NO_CURVES);
    }
  }

  lemma RequestsFirst(types: seq<SpecType>, crypto: Crypto)
    requires types != []
    ensures RequestsAll(types, crypto) == Requests(types[0], crypto) + RequestsAll(types[1..], crypto)
  {
  }

  lemma BareFirst(types: seq<SpecType>, name: Name)
    requires types != []
    ensures BareIn(types, name) <==> BareOf(types[0], name) || BareIn(types[1..], name)
  {
    AnyHoldsFirst(types, Is(TVal));
    AnyHoldsFirst(types, Is(TError));
  }

  lemma AnyHoldsFirst(types: seq<SpecType>, test: SpecType -> bool)
    requires types != []
    ensures AnyHolds(types, test) <==> Holds(types[0], test) || AnyHolds(types[1..], test)
  {
  }

  lemma PlainTokensUse(types: seq<SpecType>)
    ensures UsesAll(PlainTokens(types)) == PlainNames(types)
  {
    forall name: Name ensures name in UsesAll(PlainTokens(types)) <==> name in PlainNames(types) {
      PlainUsesAll(types, TTuple(types), name);
      PlainMember(name, types);
    }
  }

  lemma PlainTokensFirst(types: seq<SpecType>)
    requires types != []
    ensures UsesAll(PlainTokens(types)) == Uses(GeneratePlain(types[0])) + UsesAll(PlainTokens(types[1..]))
  {
    var first, rest := GenerateTypeIdent(types[0]), GenerateAll(types[1..]);
    assert ([first] + rest)[1..] == rest;
    assert ([StripPaths(first)] + StripAll(rest))[1..] == StripAll(rest);
  }

  lemma OneStripped(a: Rendered)
    ensures UsesAll(StripAll([a])) == Uses(StripPaths(a))
  {
    assert [a][1..] == [] && [StripPaths(a)][1..] == [];
  }

  /** What the curves take out of the requests: aliased sizes, and 256-bit numbers. */
  predicate Taken(name: Name, with: set<Name>, without: set<Name>, sized: bool, wide: bool, crypto: Crypto) {
    if name == BytesN then name in with <==> sized
    else if name == U256 then name in with <==> !crypto.HasAny() && wide
    else (name in with <==> name in without) && (name in with ==> !IsAliasName(name) && name != Val && name != Error)
  }

  ghost predicate CurvesTake(with: set<Name>, without: set<Name>, sized: bool, wide: bool, crypto: Crypto) {
    forall name: Name :: Taken(name, with, without, sized, wide, crypto)
  }

  lemma CurvesTakeBoth(with: set<Name>, without: set<Name>, sized: bool, wide: bool,
                       with': set<Name>, without': set<Name>, sized': bool, wide': bool, crypto: Crypto)
    requires CurvesTake(with, without, sized, wide, crypto) && CurvesTake(with', without', sized', wide', crypto)
    ensures CurvesTake(with + with', without + without', sized || sized', wide || wide', crypto)
  {
    var anySized, anyWide := sized || sized', wide || wide';
    forall name: Name ensures Taken(name, with + with', without + without', anySized, anyWide, crypto) {
      assert Taken(name, with, without, sized, wide, crypto) && Taken(name, with', without', sized', wide', crypto);
    }
  }

  /** What the curves take out of the requests for one type, and for all of some types. */
  ghost predicate TakenFrom(t: SpecType, p: SpecType -> bool, q: SpecType -> bool, crypto: Crypto) {
    CurvesTake(Requests(t, crypto), Requests(t, NO_CURVES), Holds(t, p), Holds(t, q), crypto)
  }

  ghost predicate TakenFromAll(types: seq<SpecType>, p: SpecType -> bool, q: SpecType -> bool, crypto: Crypto) {
    CurvesTake(RequestsAll(types, crypto), RequestsAll(types, NO_CURVES), AnyHolds(types, p), AnyHolds(types, q), crypto)
  }

  lemma TakenFromNone(p: SpecType -> bool, q: SpecType -> bool, crypto: Crypto)
    ensures TakenFromAll([], p, q, crypto)
  {
  }

  lemma TakenFromFirst(types: seq<SpecType>, p: SpecType -> bool, q: SpecType -> bool, crypto: Crypto)
    requires types != [] && TakenFrom(types[0], p, q, crypto) && TakenFromAll(types[1..], p, q, crypto)
    ensures TakenFromAll(types, p, q, crypto)
  {
    var t, rest := types[0], types[1..];
    CurvesTakeBoth(Requests(t, crypto), Requests(t, NO_CURVES), Holds(t, p), Holds(t, q),
                   RequestsAll(rest, crypto), RequestsAll(rest, NO_CURVES), AnyHolds(rest, p), AnyHolds(rest, q), crypto);
  }

  lemma TakenFromCompound(t: SpecType, p: SpecType -> bool, q: SpecType -> bool, crypto: Crypto)
    requires !IsLeaf(t) && TakenFromAll(Elements(t), p, q, crypto)
    ensures TakenFrom(t, p, q, crypto)
  {
    var types := Elements(t);
    OwnWithCurves(Own(t), crypto);
    CurvesTakeBoth(Own(t), Own(t), false, false, RequestsAll(types, crypto), RequestsAll(types, NO_CURVES),
                   AnyHolds(types, p), AnyHolds(types, q), crypto);
    CompoundRequests(t, crypto, p);
    CompoundRequests(t, NO_CURVES, q);
  }

  lemma OwnWithCurves(own: set<Name>, crypto: Crypto)
    requires own == {} || own == {Vec} || own == {Map}
    ensures CurvesTake(own, own, false, false, crypto)
  {
  }

  /** On a type without element types the tests tell sizes without an alias and 256-bit numbers. */
  ghost predicate Tells(p: SpecType -> bool, q: SpecType -> bool, crypto: Crypto) {
    forall t :: p(t) == (t.TBytesN? && !IsAliased(t.n, crypto)) && q(t) == t.TU256?
  }

  lemma {:induction false} RequestWithCurves(t: SpecType, p: SpecType -> bool, q: SpecType -> bool, crypto: Crypto)
    requires Tells(p, q, crypto)
    ensures TakenFrom(t, p, q, crypto)
    decreases t, 1
  {
    if IsLeaf(t) {
      LeafWithCurves(t, p, q, crypto);
    } else {
      PartsWithCurves(t, Elements(t), p, q, crypto);
      TakenFromCompound(t, p, q, crypto);
    }
  }

  lemma {:induction false} PartsWithCurves(whole: SpecType, types: seq<SpecType>, p: SpecType -> bool, q: SpecType -> bool, crypto: Crypto)
    requires Tells(p, q, crypto) && forall i :: 0 <= i < |types| ==> types[i] < whole
    ensures TakenFromAll(types, p, q, crypto)
    decreases whole, 0, |types|
  {
    if types == [] {
      TakenFromNone(p, q, crypto);
    } else {
      RequestWithCurves(types[0], p, q, crypto);
      PartsWithCurves(whole, types[1..], p, q, crypto);
      TakenFromFirst(types, p, q, crypto);
    }
  }

  lemma LeafWithCurves(t: SpecType, p: SpecType -> bool, q: SpecType -> bool, crypto: Crypto)
    requires IsLeaf(t) && Tells(p, q, crypto)
    ensures TakenFrom(t, p, q, crypto)
  {
    assert Holds(t, p) == p(t) && Holds(t, q) == q(t);
    if t.TBytesN? {
      TakenByOne(BytesN, !IsAliased(t.n, crypto), crypto);
    } else if t.TU256? {
      TakenByOne(U256, !crypto.HasAny(), crypto);
    } else {
      PlainLeaf(t, crypto, None);
      UncurvedLeaf(t, crypto);
      UncurvedNames(Requests(t, crypto), crypto);
    }
  }

  lemma TakenByOne(name: Name, kept: bool, crypto: Crypto)
    requires name == BytesN || (name == U256 && kept == !crypto.HasAny())
    ensures CurvesTake(if kept then {name} else {}, {name}, kept && name == BytesN, name == U256, crypto)
  {
  }

  lemma UncurvedNames(names: set<Name>, crypto: Crypto)
    requires BytesN !in names && U256 !in names && Val !in names && Error !in names
    requires forall name: Name | IsAliasName(name) :: name !in names
    ensures CurvesTake(names, names, false, false, crypto)
  {
  }

  lemma UncurvedLeaf(t: SpecType, crypto: Crypto)
    requires IsLeaf(t) && !t.TBytesN? && !t.TU256?
    ensures Requests(t, crypto) == Requests(t, NO_CURVES)
    ensures U256 !in Requests(t, crypto) && Val !in Requests(t, crypto) && Error !in Requests(t, crypto)
  {
  }

  // ---------------------------------------------------------------------
  // Type definitions
  // ---------------------------------------------------------------------

  /** A type with the name it is rendered under: of a parameter or a field, if any. */
  datatype Hinted = Hinted(t: SpecType, hint: Option<string>)

  datatype Item =
    | StructItem(fields: seq<Hinted>)
    | UnionItem(payloads: seq<SpecType>)
    | EventItem(params: seq<SpecType>)

  function Types(fields: seq<Hinted>): (r: seq<SpecType>)
    ensures |r| == |fields|
  {
    seq(|fields|, i requires 0 <= i < |fields| => fields[i].t)
  }

  function ItemTypes(item: Item): seq<SpecType> {
    match item
    case StructItem(fields) => Types(fields)
    case UnionItem(payloads) => payloads
    case EventItem(params) => params
  }

  /** Field names of a tuple struct are positions. */
  predicate IsPosition(name: Option<string>) {
    name.Some? && ParseUnsigned(name.value).Some? && ParseUnsigned(name.value).value < 0x1_0000_0000_0000_0000
  }

  predicate IsTupleStruct(fields: seq<Hinted>) {
    forall i :: 0 <= i < |fields| ==> IsPosition(fields[i].hint)
  }

  predicate IsSizedOrWide(t: SpecType) { t.TBytesN? || t.TU256? }

  predicate HasCryptoField(fields: seq<Hinted>) {
    exists i :: 0 <= i < |fields| &&
      (IsSizedOrWide(fields[i].t) || (fields[i].t.TVec? && IsSizedOrWide(fields[i].t.element)))
  }

  /** The structs that are rendered again, with aliases. */
  predicate IsRegenerated(item: Item, crypto: Crypto) {
    crypto.HasAny() && item.StructItem? && !IsTupleStruct(item.fields) && HasCryptoField(item.fields)
  }

  function AliasTokens(fields: seq<Hinted>, crypto: Crypto): seq<Rendered> {
    seq(|fields|, i requires 0 <= i < |fields| => GenerateTypeIdentCrypto(fields[i].t, crypto, fields[i].hint))
  }

  function Tokens(item: Item, crypto: Crypto): seq<Rendered> {
    if IsRegenerated(item, crypto) then AliasTokens(item.fields, crypto) else PlainTokens(ItemTypes(item))
  }

  /** All definitions are rendered plainly; once the curves are known, some structs are again. */
  method RenderItems(items: seq<Item>, crypto: Crypto) returns (tokens: array<seq<Rendered>>)
    ensures fresh(tokens) && tokens.Length == |items|
    ensures forall i :: 0 <= i < |items| ==> tokens[i] == Tokens(items[i], crypto)
  {
    tokens := new seq<Rendered>[|items|];
    for i := 0 to |items|
      invariant forall k :: 0 <= k < i ==> tokens[k] == PlainTokens(ItemTypes(items[k]))
    {
      tokens[i] := PlainTokens(ItemTypes(items[i]));
    }
    if !crypto.HasAny() { return; }
    for i := 0 to |items|
      invariant forall k :: 0 <= k < i ==> tokens[k] == Tokens(items[k], crypto)
      invariant forall k :: i <= k < |items| ==> tokens[k] == PlainTokens(ItemTypes(items[k]))
    {
      if items[i].StructItem? && !IsTupleStruct(items[i].fields) && HasCryptoField(items[i].fields) {
        tokens[i] := AliasTokens(items[i].fields, crypto);
      }
    }
  }

  // ---------------------------------------------------------------------
  // A whole module
  // ---------------------------------------------------------------------

  /** The types of all signatures, and the type definitions. */
  datatype Contract = Contract(signatures: seq<Hinted>, items: seq<Item>)

  function ItemsUses(items: seq<Item>, crypto: Crypto): set<Name> {
    if items == [] then {} else UsesAll(Tokens(items[0], crypto)) + ItemsUses(items[1..], crypto)
  }

  function ContractUses(c: Contract, crypto: Crypto): set<Name> {
    UsesAll(AliasTokens(c.signatures, crypto)) + ItemsUses(c.items, crypto)
  }

  function ItemsRequests(items: seq<Item>, crypto: Crypto): set<Name> {
    if items == [] then {} else RequestsAll(ItemTypes(items[0]), crypto) + ItemsRequests(items[1..], crypto)
  }

  function ContractRequests(c: Contract, crypto: Crypto): set<Name> {
    RequestsAll(Types(c.signatures), crypto) + ItemsRequests(c.items, crypto)
  }

  /** The fields of the structs that are rendered with aliases, and the types of all other items. */
  function RegeneratedFields(items: seq<Item>, crypto: Crypto): seq<Hinted> {
    if items == [] then []
    else (if IsRegenerated(items[0], crypto) then items[0].fields else []) + RegeneratedFields(items[1..], crypto)
  }

  function PlainTypes(items: seq<Item>, crypto: Crypto): seq<SpecType> {
    if items == [] then []
    else (if IsRegenerated(items[0], crypto) then [] else ItemTypes(items[0])) + PlainTypes(items[1..], crypto)
  }

  function AliasFields(c: Contract, crypto: Crypto): seq<Hinted> { c.signatures + RegeneratedFields(c.items, crypto) }

  function AliasTypes(c: Contract, crypto: Crypto): seq<SpecType> { Types(AliasFields(c, crypto)) }

  // Names and requests of two lists put together.

  lemma {:induction false} RequestsAppend(a: seq<SpecType>, b: seq<SpecType>, crypto: Crypto)
    ensures RequestsAll(a + b, crypto) == RequestsAll(a, crypto) + RequestsAll(b, crypto)
  {
    if a == [] {
      assert a + b == b;
    } else {
      assert (a + b)[1..] == a[1..] + b;
      RequestsAppend(a[1..], b, crypto);
    }
  }

  lemma {:induction false} AnyHoldsAppend(a: seq<SpecType>, b: seq<SpecType>, test: SpecType -> bool)
    ensures AnyHolds(a + b, test) <==> AnyHolds(a, test) || AnyHolds(b, test)
  {
    if a == [] {
      assert a + b == b;
    } else {
      assert (a + b)[1..] == a[1..] + b;
      AnyHoldsAppend(a[1..], b, test);
    }
  }

  lemma {:induction false} UsesAppend(a: seq<Rendered>, b: seq<Rendered>)
    ensures UsesAll(a + b) == UsesAll(a) + UsesAll(b)
  {
    if a == [] {
      assert a + b == b;
    } else {
      assert (a + b)[1..] == a[1..] + b;
      UsesAppend(a[1..], b);
    }
  }

  lemma PlainNamesAppend(a: seq<SpecType>, b: seq<SpecType>)
    ensures PlainNames(a + b) == PlainNames(a) + PlainNames(b)
  {
    RequestsAppend(a, b, NO_CURVES);
    AnyHoldsAppend(a, b, Is(TVal));
    AnyHoldsAppend(a, b, Is(TError));
  }

  lemma AliasAppend(a: seq<Hinted>, b: seq<Hinted>, crypto: Crypto)
    ensures UsesAll(AliasTokens(a + b, crypto)) == UsesAll(AliasTokens(a, crypto)) + UsesAll(AliasTokens(b, crypto))
    ensures RequestsAll(Types(a + b), crypto) == RequestsAll(Types(a), crypto) + RequestsAll(Types(b), crypto)
  {
    assert AliasTokens(a + b, crypto) == AliasTokens(a, crypto) + AliasTokens(b, crypto);
    assert Types(a + b) == Types(a) + Types(b);
    UsesAppend(AliasTokens(a, crypto), AliasTokens(b, crypto));
    RequestsAppend(Types(a), Types(b), crypto);
  }

  /** What the items use and request, sorted by the way they are rendered. */
  lemma {:induction false} ItemsSorted(items: seq<Item>, crypto: Crypto)
    ensures ItemsUses(items, crypto) ==
            UsesAll(AliasTokens(RegeneratedFields(items, crypto), crypto)) + PlainNames(PlainTypes(items, crypto))
    ensures ItemsRequests(items, crypto) ==
            RequestsAll(Types(RegeneratedFields(items, crypto)), crypto) + RequestsAll(PlainTypes(items, crypto), crypto)
  {
    if items != [] {
      var item, rest := items[0], items[1..];
      ItemsSorted(rest, crypto);
      var aliased, plain := UsesAll(AliasTokens(RegeneratedFields(rest, crypto), crypto)), PlainNames(PlainTypes(rest, crypto));
      var aliased', plain' := RequestsAll(Types(RegeneratedFields(rest, crypto)), crypto), RequestsAll(PlainTypes(rest, crypto), crypto);
      Regroup(UsesAll(Tokens(item, crypto)), aliased, plain);
      Regroup(RequestsAll(ItemTypes(item), crypto), aliased', plain');
      if IsRegenerated(item, crypto) { RegeneratedSorted(items, crypto); } else { PlainSorted(items, crypto); }
    }
  }

  lemma Regroup(first: set<Name>, a: set<Name>, b: set<Name>)
    ensures first + (a + b) == (first + a) + b == a + (first + b)
  {
  }

  lemma RegeneratedSorted(items: seq<Item>, crypto: Crypto)
    requires items != [] && IsRegenerated(items[0], crypto)
    ensures PlainTypes(items, crypto) == PlainTypes(items[1..], crypto)
    ensures var fields, rest := items[0].fields, RegeneratedFields(items[1..], crypto);
            && UsesAll(AliasTokens(RegeneratedFields(items, crypto), crypto))
               == UsesAll(Tokens(items[0], crypto)) + UsesAll(AliasTokens(rest, crypto))
            && RequestsAll(Types(RegeneratedFields(items, crypto)), crypto)
               == RequestsAll(ItemTypes(items[0]), crypto) + RequestsAll(Types(rest), crypto)
  {
    AliasAppend(items[0].fields, RegeneratedFields(items[1..], crypto), crypto);
    assert [] + PlainTypes(items[1..], crypto) == PlainTypes(items[1..], crypto);
  }

  lemma PlainSorted(items: seq<Item>, crypto: Crypto)
    requires items != [] && !IsRegenerated(items[0], crypto)
    ensures RegeneratedFields(items, crypto) == RegeneratedFields(items[1..], crypto)
    ensures PlainNames(PlainTypes(items, crypto))
            == UsesAll(Tokens(items[0], crypto)) + PlainNames(PlainTypes(items[1..], crypto))
    ensures RequestsAll(PlainTypes(items, crypto), crypto)
            == RequestsAll(ItemTypes(items[0]), crypto) + RequestsAll(PlainTypes(items[1..], crypto), crypto)
  {
    var types, rest := ItemTypes(items[0]), PlainTypes(items[1..], crypto);
    PlainTokensUse(types);
    PlainNamesAppend(types, rest);
    RequestsAppend(types, rest, crypto);
    assert [] + RegeneratedFields(items[1..], crypto) == RegeneratedFields(items[1..], crypto);
  }

  lemma ContractSorted(c: Contract, crypto: Crypto)
    ensures ContractUses(c, crypto) ==
            UsesAll(AliasTokens(AliasFields(c, crypto), crypto)) + PlainNames(PlainTypes(c.items, crypto))
    ensures ContractRequests(c, crypto) ==
            RequestsAll(AliasTypes(c, crypto), crypto) + RequestsAll(PlainTypes(c.items, crypto), crypto)
  {
    ItemsSorted(c.items, crypto);
    var again, plain := RegeneratedFields(c.items, crypto), PlainTypes(c.items, crypto);
    AliasAppend(c.signatures, again, crypto);
    Regroup(UsesAll(AliasTokens(c.signatures, crypto)), UsesAll(AliasTokens(again, crypto)), PlainNames(plain));
    Regroup(RequestsAll(Types(c.signatures), crypto), RequestsAll(Types(again), crypto), RequestsAll(plain, crypto));
  }

  lemma {:induction false} FieldsRelated(fields: seq<Hinted>, crypto: Crypto)
    ensures AllRelated(Types(fields), UsesAll(AliasTokens(fields, crypto)), crypto)
    decreases |fields|
  {
    if fields != [] {
      var first, rest := fields[0], fields[1..];
      TypeRelated(first.t, crypto, first.hint);
      FieldsRelated(rest, crypto);
      assert Types(fields)[1..] == Types(rest) && AliasTokens(fields, crypto)[1..] == AliasTokens(rest, crypto);
      AgreementJoins(Uses(GenerateTypeIdentCrypto(first.t, crypto, first.hint)), Requests(first.t, crypto),
                     UsesAll(AliasTokens(rest, crypto)), RequestsAll(Types(rest), crypto), crypto);
    }
  }

  /** Every name used without a path is imported, and nothing is requested that is not used. */
  predicate ImportsMatch(uses: set<Name>, requests: set<Name>, crypto: Crypto) {
    forall name: Name :: AgreesOn(name, uses, requests, crypto)
  }

  predicate IsBlsSize(n: nat) { n == 48 || n == 96 || n == 192 }

  function BlsSized(): SpecType -> bool { (t: SpecType) => t.TBytesN? && IsBlsSize(t.n) }

  /** `BytesN` is written and not requested: no size without an alias occurs, and one with an alias
      does in a definition that is rendered plainly - or, with both curves in use, one of a
      BLS12-381 size does where aliases are. */
  predicate LosesBytesN(c: Contract, crypto: Crypto) {
    && !AnyHolds(AliasTypes(c, crypto), Unaliased(crypto)) && !AnyHolds(PlainTypes(c.items, crypto), Unaliased(crypto))
    && (AnyHolds(PlainTypes(c.items, crypto), IsBytesN())
        || (crypto.bn254 && crypto.bls12381 && AnyHolds(AliasTypes(c, crypto), BlsSized())))
  }

  /** `U256` is written and not requested: it occurs in a definition that is rendered plainly. */
  predicate LosesU256(c: Contract, crypto: Crypto) {
    crypto.HasAny() && AnyHolds(PlainTypes(c.items, crypto), Is(TU256))
  }

  /** Type definitions write `Val` and `Error` without their paths. */
  predicate LosesVal(c: Contract, crypto: Crypto) { AnyHolds(PlainTypes(c.items, crypto), Is(TVal)) }

  predicate LosesError(c: Contract, crypto: Crypto) { AnyHolds(PlainTypes(c.items, crypto), Is(TError)) }

  /** The imports match the rendered types for exactly the modules that lose no name. */
  lemma ImportsMatchExactlyWhen(c: Contract, crypto: Crypto)
    ensures ImportsMatch(ContractUses(c, crypto), ContractRequests(c, crypto), crypto) <==>
            !LosesBytesN(c, crypto) && !LosesU256(c, crypto) && !LosesVal(c, crypto) && !LosesError(c, crypto)
  {
    BytesNAgrees(c, crypto);
    U256Agrees(c, crypto);
    ValAgrees(c, crypto);
    ErrorAgrees(c, crypto);
    MatchByName(c, crypto);
  }

  predicate IsUsed(name: Name, c: Contract, crypto: Crypto) { name in ContractUses(c, crypto) }

  predicate IsRequested(name: Name, c: Contract, crypto: Crypto) { name in ContractRequests(c, crypto) }

  /** Used without a path, and not requested by the types. */
  predicate IsMissing(name: Name, c: Contract, crypto: Crypto) {
    IsUsed(name, c, crypto) && !IsRequested(name, c, crypto)
  }

  /** The names that the types use and do not request: the curve names, which are brought in
      apart, and exactly these four, which are left to what the function bodies request. */
  lemma LostExactly(c: Contract, crypto: Crypto)
    ensures IsMissing(BytesN, c, crypto) <==> LosesBytesN(c, crypto)
    ensures IsMissing(U256, c, crypto) <==> LosesU256(c, crypto)
    ensures IsMissing(Val, c, crypto) <==> LosesVal(c, crypto)
    ensures IsMissing(Error, c, crypto) <==> LosesError(c, crypto)
    ensures forall name: Name | name != BytesN && name != U256 && name != Val && name != Error && IsMissing(name, c, crypto) ::
              IsAliasName(name) && name in ExtraImports(crypto)
  {
    LostSized(c, crypto);
    LostWide(c, crypto);
    ValExactly(c, crypto);
    ErrorExactly(c, crypto);
    forall name: Name | name != BytesN && name != U256 && name != Val && name != Error && IsMissing(name, c, crypto)
      ensures IsAliasName(name) && name in ExtraImports(crypto)
    {
      LostOther(c, crypto, name);
    }
  }

  lemma LostSized(c: Contract, crypto: Crypto)
    ensures IsMissing(BytesN, c, crypto) <==> LosesBytesN(c, crypto)
  {
    BytesNAgrees(c, crypto);
    LossesShow(c, crypto);
  }

  lemma LostWide(c: Contract, crypto: Crypto)
    ensures IsMissing(U256, c, crypto) <==> LosesU256(c, crypto)
  {
    U256Agrees(c, crypto);
    LossesShow(c, crypto);
  }

  lemma LostOther(c: Contract, crypto: Crypto, name: Name)
    requires name != BytesN && name != U256 && name != Val && name != Error && IsMissing(name, c, crypto)
    ensures IsAliasName(name) && name in ExtraImports(crypto)
  {
    OthersAgree(c, crypto, name);
  }

  /** A name that is lost is used. */
  lemma LossesShow(c: Contract, crypto: Crypto)
    ensures LosesBytesN(c, crypto) ==> BytesN in ContractUses(c, crypto)
    ensures LosesU256(c, crypto) ==> U256 in ContractUses(c, crypto)
  {
    InContract(c, crypto, BytesN);
    InContract(c, crypto, U256);
    FieldsRelated(AliasFields(c, crypto), crypto);
    BytesNSplit(AliasTypes(c, crypto), crypto);
    PlainSized(PlainTypes(c.items, crypto), crypto);
    PlainWide(PlainTypes(c.items, crypto), crypto);
  }

  /** The names that the types rendered with aliases use. */
  function AliasedUses(c: Contract, crypto: Crypto): set<Name> {
    UsesAll(AliasTokens(AliasFields(c, crypto), crypto))
  }

  lemma BareAgree(name: Name, uses: set<Name>, aliased: seq<SpecType>, plain: seq<SpecType>, crypto: Crypto)
    requires (name == Val || name == Error) && AgreesOn(name, uses, RequestsAll(aliased, crypto), crypto)
    ensures name in uses + PlainNames(plain) <==> AnyHolds(plain, Is(if name == Val then TVal else TError))
    ensures name !in RequestsAll(aliased, crypto) + RequestsAll(plain, crypto)
  {
    if name == Val {
      PlainVal(aliased, crypto);
      PlainVal(plain, crypto);
    } else {
      PlainError(aliased, crypto);
      PlainError(plain, crypto);
    }
  }

  lemma BareExactly(c: Contract, crypto: Crypto, name: Name)
    requires name == Val || name == Error
    ensures IsUsed(name, c, crypto) <==> AnyHolds(PlainTypes(c.items, crypto), Is(if name == Val then TVal else TError))
    ensures !IsRequested(name, c, crypto)
  {
    ContractSorted(c, crypto);
    AliasedAgree(c, crypto, name);
    BareAgree(name, AliasedUses(c, crypto), AliasTypes(c, crypto), PlainTypes(c.items, crypto), crypto);
  }

  lemma ValExactly(c: Contract, crypto: Crypto)
    ensures IsUsed(Val, c, crypto) <==> LosesVal(c, crypto)
    ensures !IsRequested(Val, c, crypto)
  {
    BareExactly(c, crypto, Val);
  }

  lemma ErrorExactly(c: Contract, crypto: Crypto)
    ensures IsUsed(Error, c, crypto) <==> LosesError(c, crypto)
    ensures !IsRequested(Error, c, crypto)
  {
    BareExactly(c, crypto, Error);
  }

  lemma MatchByName(c: Contract, crypto: Crypto)
    ensures var uses, requests := ContractUses(c, crypto), ContractRequests(c, crypto);
            ImportsMatch(uses, requests, crypto) <==>
              AgreesOn(BytesN, uses, requests, crypto) && AgreesOn(U256, uses, requests, crypto)
              && AgreesOn(Val, uses, requests, crypto) && AgreesOn(Error, uses, requests, crypto)
  {
    var uses, requests := ContractUses(c, crypto), ContractRequests(c, crypto);
    forall name: Name | name != BytesN && name != U256 && name != Val && name != Error
      ensures AgreesOn(name, uses, requests, crypto)
    {
      OthersAgree(c, crypto, name);
    }
  }

  /** A name is used or requested where the two kinds of types use or request it. */
  lemma InContract(c: Contract, crypto: Crypto, name: Name)
    ensures name in ContractUses(c, crypto) <==>
            name in UsesAll(AliasTokens(AliasFields(c, crypto), crypto)) || name in PlainNames(PlainTypes(c.items, crypto))
    ensures name in ContractRequests(c, crypto) <==>
            name in RequestsAll(AliasTypes(c, crypto), crypto) || name in RequestsAll(PlainTypes(c.items, crypto), crypto)
  {
    ContractSorted(c, crypto);
  }

  lemma PartTaken(name: Name, types: seq<SpecType>, crypto: Crypto)
    ensures Taken(name, RequestsAll(types, crypto), RequestsAll(types, NO_CURVES),
                  AnyHolds(types, Unaliased(crypto)), AnyHolds(types, Is(TU256)), crypto)
  {
    PartsWithCurves(TTuple(types), types, Unaliased(crypto), Is(TU256), crypto);
  }

  lemma PlainMember(name: Name, types: seq<SpecType>)
    ensures name in PlainNames(types) <==>
            name in RequestsAll(types, NO_CURVES)
            || BareIn(types, name)
  {
  }

  lemma PlainSized(types: seq<SpecType>, crypto: Crypto)
    ensures BytesN in PlainNames(types) <==> AnyHolds(types, IsBytesN())
    ensures BytesN in RequestsAll(types, crypto) <==> AnyHolds(types, Unaliased(crypto))
    ensures AnyHolds(types, Unaliased(crypto)) ==> AnyHolds(types, IsBytesN())
  {
    PlainMember(BytesN, types);
    PartTaken(BytesN, types, crypto);
    PartTaken(BytesN, types, NO_CURVES);
    AnyHoldsIfImplied(types, Unaliased(NO_CURVES), IsBytesN());
    AnyHoldsIfImplied(types, IsBytesN(), Unaliased(NO_CURVES));
    AnyHoldsIfImplied(types, Unaliased(crypto), IsBytesN());
  }

  lemma PlainWide(types: seq<SpecType>, crypto: Crypto)
    ensures U256 in PlainNames(types) <==> AnyHolds(types, Is(TU256))
    ensures U256 in RequestsAll(types, crypto) <==> !crypto.HasAny() && AnyHolds(types, Is(TU256))
  {
    PlainMember(U256, types);
    PartTaken(U256, types, crypto);
    PartTaken(U256, types, NO_CURVES);
  }

  lemma PlainVal(types: seq<SpecType>, crypto: Crypto)
    ensures Val in PlainNames(types) <==> AnyHolds(types, Is(TVal))
    ensures Val !in RequestsAll(types, crypto)
  {
    PlainMember(Val, types);
    PartTaken(Val, types, crypto);
    PartTaken(Val, types, NO_CURVES);
  }

  lemma PlainError(types: seq<SpecType>, crypto: Crypto)
    ensures Error in PlainNames(types) <==> AnyHolds(types, Is(TError))
    ensures Error !in RequestsAll(types, crypto)
  {
    PlainMember(Error, types);
    PartTaken(Error, types, crypto);
    PartTaken(Error, types, NO_CURVES);
  }

  lemma PlainOthers(types: seq<SpecType>, crypto: Crypto, name: Name)
    requires name != BytesN && name != U256 && name != Val && name != Error
    ensures AgreesOn(name, PlainNames(types), RequestsAll(types, crypto), crypto)
  {
    PlainMember(name, types);
    PartTaken(name, types, crypto);
    PartTaken(name, types, NO_CURVES);
  }

  lemma BytesNAgrees(c: Contract, crypto: Crypto)
    ensures AgreesOn(BytesN, ContractUses(c, crypto), ContractRequests(c, crypto), crypto) <==> !LosesBytesN(c, crypto)
  {
    InContract(c, crypto, BytesN);
    FieldsRelated(AliasFields(c, crypto), crypto);
    BytesNSplit(AliasTypes(c, crypto), crypto);
    PlainSized(PlainTypes(c.items, crypto), crypto);
  }

  /** Where aliases are, names other than `BytesN` agree. */
  lemma AliasedAgree(c: Contract, crypto: Crypto, name: Name)
    requires name != BytesN
    ensures AgreesOn(name, UsesAll(AliasTokens(AliasFields(c, crypto), crypto)), RequestsAll(AliasTypes(c, crypto), crypto), crypto)
  {
    FieldsRelated(AliasFields(c, crypto), crypto);
  }

  lemma WideIn(uses: set<Name>, aliased: seq<SpecType>, plain: seq<SpecType>, crypto: Crypto)
    requires AgreesOn(U256, uses, RequestsAll(aliased, crypto), crypto)
    ensures AgreesOn(U256, uses + PlainNames(plain), RequestsAll(aliased, crypto) + RequestsAll(plain, crypto), crypto)
            <==> !(crypto.HasAny() && AnyHolds(plain, Is(TU256)))
  {
    PlainWide(plain, crypto);
    PlainWide(aliased, crypto);
  }

  lemma U256Agrees(c: Contract, crypto: Crypto)
    ensures AgreesOn(U256, ContractUses(c, crypto), ContractRequests(c, crypto), crypto) <==> !LosesU256(c, crypto)
  {
    ContractSorted(c, crypto);
    AliasedAgree(c, crypto, U256);
    WideIn(AliasedUses(c, crypto), AliasTypes(c, crypto), PlainTypes(c.items, crypto), crypto);
  }

  lemma ValAgrees(c: Contract, crypto: Crypto)
    ensures AgreesOn(Val, ContractUses(c, crypto), ContractRequests(c, crypto), crypto) <==> !LosesVal(c, crypto)
  {
    ValExactly(c, crypto);
  }

  lemma ErrorAgrees(c: Contract, crypto: Crypto)
    ensures AgreesOn(Error, ContractUses(c, crypto), ContractRequests(c, crypto), crypto) <==> !LosesError(c, crypto)
  {
    ErrorExactly(c, crypto);
  }

  lemma OthersAgree(c: Contract, crypto: Crypto, name: Name)
    requires name != BytesN && name != U256 && name != Val && name != Error
    ensures AgreesOn(name, ContractUses(c, crypto), ContractRequests(c, crypto), crypto)
  {
    InContract(c, crypto, name);
    AliasedAgree(c, crypto, name);
    PlainOthers(PlainTypes(c.items, crypto), crypto, name);
  }

  /** A sized byte array is rendered in full where aliases are, but not requested, only for the
      BLS12-381 sizes, and only with both curves in use. */
  lemma BytesNSplit(types: seq<SpecType>, crypto: Crypto)
    ensures AnyHolds(types, Written(crypto)) <==>
            AnyHolds(types, Unaliased(crypto))
            || (crypto.bn254 && crypto.bls12381 && AnyHolds(types, BlsSized()))
  {
    AnyHoldsIfImplied(types, Unaliased(crypto), Written(crypto));
    if crypto.bn254 && crypto.bls12381 {
      AnyHoldsIfImplied(types, BlsSized(), Written(crypto));
      AnyHoldsEither(types, Written(crypto), Unaliased(crypto), BlsSized());
    } else {
      AnyHoldsIfImplied(types, Written(crypto), Unaliased(crypto));
    }
  }

  lemma {:induction false} HoldsEither(t: SpecType, p: SpecType -> bool, q: SpecType -> bool, r: SpecType -> bool)
    requires forall leaf :: p(leaf) ==> q(leaf) || r(leaf)
    ensures Holds(t, p) ==> Holds(t, q) || Holds(t, r)
    decreases t
  {
    match t {
      case TVec(element) => HoldsEither(element, p, q, r);
      case TMap(key, value) => HoldsEither(key, p, q, r); HoldsEither(value, p, q, r);
      case TOption(value) => HoldsEither(value, p, q, r);
      case TResult(ok, err) => HoldsEither(ok, p, q, r); HoldsEither(err, p, q, r);
      case TTuple(types) => AnyHoldsEither(types, p, q, r);
      case _ =>
    }
  }

  lemma {:induction false} AnyHoldsEither(types: seq<SpecType>, p: SpecType -> bool, q: SpecType -> bool, r: SpecType -> bool)
    requires forall leaf :: p(leaf) ==> q(leaf) || r(leaf)
    ensures AnyHolds(types, p) ==> AnyHolds(types, q) || AnyHolds(types, r)
    decreases types
  {
    if types != [] {
      HoldsEither(types[0], p, q, r);
      AnyHoldsEither(types[1..], p, q, r);
    }
  }

  /** A module with both curves and one 48-byte array in a signature does not compile: the array is
      written out and its name is nowhere imported. */
  lemma BothCurvesLoseBytesN(hint: Option<string>)
    ensures var c, both := Contract([Hinted(TBytesN(48), hint)], []), Crypto(true, true);
            BytesN in ContractUses(c, both) && BytesN !in ContractRequests(c, both)
  {
    var f, both := Hinted(TBytesN(48), hint), Crypto(true, true);
    assert AliasTokens([f], both) == [GenerateTypeIdentCrypto(f.t, both, hint)] == [SizedBytes(48)];
    assert Types([f]) == [TBytesN(48)];
    assert [TBytesN(48)][1..] == [] && [SizedBytes(48)][1..] == [];
    assert UsesAll([SizedBytes(48)]) == {BytesN} && RequestsAll([TBytesN(48)], both) == {};
  }

  /** One curve is enough: an event or a union case with a 64-byte array, or a struct that has one
      only inside an `Option`, is not rendered with aliases, but the request is suppressed. */
  lemma OneCurveLosesBytesN(item: Item, field: string)
    requires item == UnionItem([TBytesN(64)]) || item == EventItem([TBytesN(64)])
          || item == StructItem([Hinted(TOption(TBytesN(64)), Some(field))])
    ensures var c, bn := Contract([], [item]), Crypto(true, false);
            BytesN in ContractUses(c, bn) && BytesN !in ContractRequests(c, bn)
  {
    var c, bn := Contract([], [item]), Crypto(true, false);
    var t := if item.StructItem? then TOption(TBytesN(64)) else TBytesN(64);
    assert [item][1..] == [] && ItemTypes(item) == [t] && !IsRegenerated(item, bn);
    OneItem(item, t, bn);
    if item.StructItem? { OneStripped(SizedBytes(64)); }
    assert Uses(GeneratePlain(t)) == {BytesN};
  }

  lemma OneItem(item: Item, t: SpecType, crypto: Crypto)
    requires ItemTypes(item) == [t] && !IsRegenerated(item, crypto)
    ensures ContractUses(Contract([], [item]), crypto) == Uses(GeneratePlain(t))
    ensures ContractRequests(Contract([], [item]), crypto) == Requests(t, crypto)
  {
    assert [item][1..] == [] && [t][1..] == [];
    PlainOne(t);
    OneStripped(GenerateTypeIdent(t));
    assert AliasTokens([], crypto) == [] && Types([]) == [];
    assert ItemsUses([item], crypto) == UsesAll(PlainTokens([t])) + ItemsUses([], crypto);
    assert ItemsRequests([item], crypto) == RequestsAll([t], crypto) + ItemsRequests([], crypto);
  }

  /** No name is brought in twice exactly when at most one curve is in use. */
  lemma ExtraImportsDistinctExactlyWhen(crypto: Crypto)
    ensures (forall i, j :: 0 <= i < j < |ExtraImports(crypto)| ==> ExtraImports(crypto)[i] != ExtraImports(crypto)[j])
            <==> !(crypto.bn254 && crypto.bls12381)
  {
    var names := ExtraImports(crypto);
    if crypto.bn254 && crypto.bls12381 {
      assert names[2] == names[7];
    }
  }

  /** Without curves the alias-aware rendering is the plain one. */
  lemma {:induction false} NoCurvesNoAliases(t: SpecType, hint: Option<string>)
    ensures GenerateTypeIdentCrypto(t, Crypto(false, false), hint) == GenerateTypeIdent(t)
    decreases t
  {
    match t {
      case TVec(element) => NoCurvesNoAliases(element, None);
      case TMap(key, value) => NoCurvesNoAliases(key, None); NoCurvesNoAliases(value, None);
      case TOption(value) => NoCurvesNoAliases(value, None);
      case TResult(ok, err) => NoCurvesNoAliases(ok, None); NoCurvesNoAliases(err, None);
      case TTuple(types) => NoCurvesNoAliasesIn(types);
      case _ =>
    }
  }

  lemma {:induction false} NoCurvesNoAliasesIn(types: seq<SpecType>)
    ensures GenerateAllCrypto(types, Crypto(false, false)) == GenerateAll(types)
    decreases types
  {
    if types != [] {
      NoCurvesNoAliases(types[0], None);
      NoCurvesNoAliasesIn(types[1..]);
    }
  }
}
