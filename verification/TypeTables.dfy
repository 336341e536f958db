/** The rendered types as texts, and the requested names by the types that ask for them. */
module TypeTables {
  import opened Ir
  import opened Spec
  import opened Imports

  // ---------------------------------------------------------------------
  // Aliases
  // ---------------------------------------------------------------------

  /** The text holds `fp2`, in any case. */
  predicate HoldsFp2(w: string) {
    exists i :: 0 <= i <= |w| - 3 && StandsFp2(w, i)
  }

  predicate StandsFp2(w: string, i: nat)
    requires i <= |w| - 3
  {
    w[i..i + 3] == "fp2" || w[i..i + 3] == "fP2" || w[i..i + 3] == "Fp2" || w[i..i + 3] == "FP2"
  }

  lemma Fp2Exactly(w: string)
    ensures MentionsFp2(Some(w)) <==> HoldsFp2(w)
  {
    forall i | 0 <= i <= |w| - 3 ensures StandsFp2(w, i) <==> IsFp2At(w, i) { Fp2AtExactly(w, i); }
  }

  lemma Fp2AtExactly(w: string, i: nat)
    requires i <= |w| - 3
    ensures StandsFp2(w, i) <==> IsFp2At(w, i)
  {
    assert w[i..i + 3] == [w[i], w[i + 1], w[i + 2]];
    LowerExactly(w[i], 'f', 'F');
    LowerExactly(w[i + 1], 'p', 'P');
  }

  lemma LowerExactly(c: char, small: char, big: char)
    requires 'a' <= small <= 'z' && small as int - 'a' as int == big as int - 'A' as int
    ensures Lower(c) == small <==> c == small || c == big
  {
  }

  /** Each alias stands for one size of byte array, or for the wide integer, under its curve. */
  lemma AliasExactly(t: SpecType, crypto: Crypto, hint: Option<string>, alias: Name)
    ensures ResolveCryptoAlias(t, crypto, hint) == Some(alias) <==>
            || (alias == Bn254G1Affine && t == TBytesN(64) && crypto.bn254)
            || (alias == Bn254G2Affine && t == TBytesN(128) && crypto.bn254)
            || (alias == Bls12381Fp && t == TBytesN(48) && crypto == Crypto(false, true))
            || (alias == Bls12381Fp2 && t == TBytesN(96) && crypto == Crypto(false, true) && hint.Some? && HoldsFp2(hint.value))
            || (alias == Bls12381G1Affine && t == TBytesN(96) && crypto == Crypto(false, true)
                && !(hint.Some? && HoldsFp2(hint.value)))
            || (alias == Bls12381G2Affine && t == TBytesN(192) && crypto == Crypto(false, true))
            || (alias == Fr && t == TU256 && crypto != Crypto(false, false))
  {
    if hint.Some? { Fp2Exactly(hint.value); }
  }

  // ---------------------------------------------------------------------
  // Texts
  // ---------------------------------------------------------------------

  function NameText(name: Name): string {
    match name
    case Symbol => "Symbol"
    case Address => "Address"
    case MuxedAddress => "MuxedAddress"
    case Bytes => "Bytes"
    case BytesN => "BytesN"
    case String => "String"
    case Timepoint => "Timepoint"
    case Duration => "Duration"
    case U256 => "U256"
    case I256 => "I256"
    case Vec => "Vec"
    case Map => "Map"
    case Val => "Val"
    case Error => "Error"
    case Bn254G1Affine => "Bn254G1Affine"
    case Bn254G2Affine => "Bn254G2Affine"
    case Fr => "Fr"
    case Bls12381Fp => "Bls12381Fp"
    case Bls12381Fp2 => "Bls12381Fp2"
    case Bls12381G1Affine => "Bls12381G1Affine"
    case Bls12381G2Affine => "Bls12381G2Affine"
  }

  /** The text of a rendered type, without spaces. */
  function Text(r: Rendered): string {
    match r
    case Sdk(name, args) => if args == [] then NameText(name) else NameText(name) + "<" + Listed(args) + ">"
    case SizedBytes(n) => "BytesN<" + Decimal(n) + ">"
    case Path(name) => "soroban_sdk::" + NameText(name)
    case Other(text) => text
    case Std(head, args) =>
      if head != "" then head + "<" + Listed(args) + ">"
      else if |args| == 1 then "(" + Listed(args) + ",)"
      else "(" + Listed(args) + ")"
  }

  function Listed(rs: seq<Rendered>): string {
    if rs == [] then "" else if |rs| == 1 then Text(rs[0]) else Text(rs[0]) + "," + Listed(rs[1..])
  }

  function TextOf(t: SpecType): string { Text(GenerateTypeIdent(t)) }

  function Texts(types: seq<SpecType>): string {
    if types == [] then "" else if |types| == 1 then TextOf(types[0]) else TextOf(types[0]) + "," + Texts(types[1..])
  }

  lemma SdkText(name: Name)
    ensures Text(Sdk(name, [])) == NameText(name) && Text(Path(name)) == "soroban_sdk::" + NameText(name)
  {
  }

  lemma TextTexts()
    ensures TextOf(TSymbol) == "Symbol" && TextOf(TBytes) == "Bytes" && TextOf(TString) == "String"
  {
    SdkText(Symbol);
    SdkText(Bytes);
    SdkText(String);
  }

  lemma AddressTexts()
    ensures TextOf(TAddress) == "Address" && TextOf(TMuxedAddress) == "MuxedAddress"
  {
    SdkText(Address);
    SdkText(MuxedAddress);
  }

  lemma TimeTexts()
    ensures TextOf(TTimepoint) == "Timepoint" && TextOf(TDuration) == "Duration"
  {
    SdkText(Timepoint);
    SdkText(Duration);
  }

  lemma WideTexts()
    ensures TextOf(TU256) == "U256" && TextOf(TI256) == "I256"
  {
    SdkText(U256);
    SdkText(I256);
  }

  lemma PathTexts()
    ensures TextOf(TVal) == "soroban_sdk::" + "Val" && TextOf(TError) == "soroban_sdk::" + "Error"
  {
    SdkText(Val);
    SdkText(Error);
  }

  lemma NumberTexts()
    ensures TextOf(TU32) == "u32" && TextOf(TI32) == "i32" && TextOf(TU64) == "u64" && TextOf(TI64) == "i64"
    ensures TextOf(TU128) == "u128" && TextOf(TI128) == "i128"
  {
  }

  lemma OtherTexts(n: nat, name: string)
    ensures TextOf(TBool) == "bool" && TextOf(TVoid) == "()"
    ensures TextOf(TBytesN(n)) == "BytesN<" + Decimal(n) + ">" && TextOf(TUdt(name)) == name
  {
  }

  lemma OneListed(a: Rendered)
    ensures Listed([a]) == Text(a)
  {
  }

  lemma TwoListed(a: Rendered, b: Rendered)
    ensures Listed([a, b]) == Text(a) + "," + Text(b)
  {
    assert [a, b][1..] == [b];
    OneListed(b);
  }

  lemma OneSdkText(name: Name, a: Rendered)
    ensures Text(Sdk(name, [a])) == NameText(name) + "<" + Text(a) + ">"
  {
    OneListed(a);
  }

  lemma TwoSdkText(name: Name, a: Rendered, b: Rendered)
    ensures Text(Sdk(name, [a, b])) == NameText(name) + "<" + (Text(a) + "," + Text(b)) + ">"
  {
    TwoListed(a, b);
  }

  lemma OneStdText(head: string, a: Rendered)
    requires head != ""
    ensures Text(Std(head, [a])) == head + "<" + Text(a) + ">"
  {
    OneListed(a);
  }

  lemma TwoStdText(head: string, a: Rendered, b: Rendered)
    requires head != ""
    ensures Text(Std(head, [a, b])) == head + "<" + (Text(a) + "," + Text(b)) + ">"
  {
    TwoListed(a, b);
  }

  lemma VecText(a: SpecType)
    ensures TextOf(TVec(a)) == "Vec" + "<" + TextOf(a) + ">"
  {
    OneSdkText(Vec, GenerateTypeIdent(a));
  }

  lemma MapText(a: SpecType, b: SpecType)
    ensures TextOf(TMap(a, b)) == "Map" + "<" + (TextOf(a) + "," + TextOf(b)) + ">"
  {
    TwoSdkText(Map, GenerateTypeIdent(a), GenerateTypeIdent(b));
  }

  lemma OptionText(a: SpecType)
    ensures TextOf(TOption(a)) == "Option" + "<" + TextOf(a) + ">"
  {
    OneStdText("Option", GenerateTypeIdent(a));
  }

  lemma ResultText(a: SpecType, b: SpecType)
    ensures TextOf(TResult(a, b)) == "Result" + "<" + (TextOf(a) + "," + TextOf(b)) + ">"
  {
    TwoStdText("Result", GenerateTypeIdent(a), GenerateTypeIdent(b));
  }

  lemma {:induction false} TupleTexts(types: seq<SpecType>)
    ensures TextOf(TTuple(types)) == if |types| == 1 then "(" + TextOf(types[0]) + ",)" else "(" + Texts(types) + ")"
  {
    ListedTexts(types);
  }

  lemma {:induction false} ListedTexts(types: seq<SpecType>)
    ensures Listed(GenerateAll(types)) == Texts(types)
  {
    if types != [] {
      ListedTexts(types[1..]);
      assert GenerateAll(types)[1..] == GenerateAll(types[1..]);
    }
  }

  // ---------------------------------------------------------------------
  // Texts with aliases
  // ---------------------------------------------------------------------

  function AliasText(t: SpecType, crypto: Crypto, hint: Option<string>): string {
    Text(GenerateTypeIdentCrypto(t, crypto, hint))
  }

  function AliasTexts(types: seq<SpecType>, crypto: Crypto): string {
    if types == [] then ""
    else if |types| == 1 then AliasText(types[0], crypto, None)
    else AliasText(types[0], crypto, None) + "," + AliasTexts(types[1..], crypto)
  }

  /** A type is written as its alias if it has one; a type without elements is written plainly if not. */
  lemma LeafAliasText(t: SpecType, crypto: Crypto, hint: Option<string>)
    requires IsLeaf(t)
    ensures var alias := ResolveCryptoAlias(t, crypto, hint);
            AliasText(t, crypto, hint) == if alias.Some? then NameText(alias.value) else TextOf(t)
  {
  }

  // The elements of a type are written with their aliases, and without its hint.

  lemma VecAliasText(a: SpecType, crypto: Crypto, hint: Option<string>)
    ensures AliasText(TVec(a), crypto, hint) == "Vec" + "<" + AliasText(a, crypto, None) + ">"
  {
    var x := GenerateTypeIdentCrypto(a, crypto, None);
    assert GenerateTypeIdentCrypto(TVec(a), crypto, hint) == Sdk(Vec, [x]);
    OneSdkText(Vec, x);
  }

  lemma MapAliasText(a: SpecType, b: SpecType, crypto: Crypto, hint: Option<string>)
    ensures AliasText(TMap(a, b), crypto, hint) == "Map" + "<" + (AliasText(a, crypto, None) + "," + AliasText(b, crypto, None)) + ">"
  {
    var x, y := GenerateTypeIdentCrypto(a, crypto, None), GenerateTypeIdentCrypto(b, crypto, None);
    assert GenerateTypeIdentCrypto(TMap(a, b), crypto, hint) == Sdk(Map, [x, y]);
    TwoSdkText(Map, x, y);
  }

  lemma OptionAliasText(a: SpecType, crypto: Crypto, hint: Option<string>)
    ensures AliasText(TOption(a), crypto, hint) == "Option" + "<" + AliasText(a, crypto, None) + ">"
  {
    var x := GenerateTypeIdentCrypto(a, crypto, None);
    assert GenerateTypeIdentCrypto(TOption(a), crypto, hint) == Std("Option", [x]);
    OneStdText("Option", x);
  }

  lemma ResultAliasText(a: SpecType, b: SpecType, crypto: Crypto, hint: Option<string>)
    ensures AliasText(TResult(a, b), crypto, hint) == "Result" + "<" + (AliasText(a, crypto, None) + "," + AliasText(b, crypto, None)) + ">"
  {
    var x, y := GenerateTypeIdentCrypto(a, crypto, None), GenerateTypeIdentCrypto(b, crypto, None);
    assert GenerateTypeIdentCrypto(TResult(a, b), crypto, hint) == Std("Result", [x, y]);
    TwoStdText("Result", x, y);
  }

  lemma {:induction false} TupleAliasTexts(types: seq<SpecType>, crypto: Crypto, hint: Option<string>)
    ensures AliasText(TTuple(types), crypto, hint) ==
            if |types| == 1 then "(" + AliasText(types[0], crypto, None) + ",)" else "(" + AliasTexts(types, crypto) + ")"
  {
    ListedAliasTexts(types, crypto);
  }

  lemma {:induction false} ListedAliasTexts(types: seq<SpecType>, crypto: Crypto)
    ensures Listed(GenerateAllCrypto(types, crypto)) == AliasTexts(types, crypto)
  {
    if types != [] {
      ListedAliasTexts(types[1..], crypto);
      assert GenerateAllCrypto(types, crypto)[1..] == GenerateAllCrypto(types[1..], crypto);
    }
  }

  // ---------------------------------------------------------------------
  // Requests
  // ---------------------------------------------------------------------

  /** The type `u` is `t` or stands in it. */
  predicate Inside(u: SpecType, t: SpecType)
    decreases t
  {
    u == t ||
    match t
    case TVec(element) => Inside(u, element)
    case TMap(key, value) => Inside(u, key) || Inside(u, value)
    case TOption(value) => Inside(u, value)
    case TResult(ok, err) => Inside(u, ok) || Inside(u, err)
    case TTuple(types) => exists i :: 0 <= i < |types| && Inside(u, types[i])
    case _ => false
  }

  /** The types that ask for a name; a curve takes the place of some. */
  predicate AsksFor(u: SpecType, name: Name, crypto: Crypto) {
    || (name == Symbol && u == TSymbol) || (name == Address && u == TAddress) || (name == MuxedAddress && u == TMuxedAddress)
    || (name == Bytes && u == TBytes) || (name == String && u == TString) || (name == I256 && u == TI256)
    || (name == Timepoint && u == TTimepoint) || (name == Duration && u == TDuration)
    || (name == Vec && u.TVec?) || (name == Map && u.TMap?)
    || (name == U256 && u == TU256 && crypto == Crypto(false, false))
    || (name == BytesN && u.TBytesN? && !(crypto.bn254 && (u.n == 64 || u.n == 128))
        && !(crypto.bls12381 && (u.n == 48 || u.n == 96 || u.n == 192)))
  }

  /** Some type in `t` passes the test. */
  ghost predicate HasInside(t: SpecType, test: SpecType -> bool) { exists u :: Inside(u, t) && test(u) }

  function Asking(name: Name, crypto: Crypto): SpecType -> bool { (u: SpecType) => AsksFor(u, name, crypto) }

  /** A name is requested for a type exactly if a type in it asks for it. */
  lemma {:induction false} RequestsExactly(t: SpecType, crypto: Crypto, name: Name)
    ensures name in Requests(t, crypto) <==> HasInside(t, Asking(name, crypto))
    decreases t, 1 + |Elements(t)|
  {
    if IsLeaf(t) {
      LeafAsks(t, crypto, name);
      InsideLeaf(t, Asking(name, crypto));
    } else {
      ElementsRequest(Elements(t), t, crypto, name);
      CompoundRequests(t, crypto, leaf => true);
      OwnRequest(t, crypto, name);
      InsideElements(t, Asking(name, crypto));
    }
  }

  lemma LeafAsks(t: SpecType, crypto: Crypto, name: Name)
    requires IsLeaf(t)
    ensures name in Requests(t, crypto) <==> AsksFor(t, name, crypto)
  {
  }

  lemma OwnRequest(t: SpecType, crypto: Crypto, name: Name)
    requires !IsLeaf(t)
    ensures name in Own(t) <==> AsksFor(t, name, crypto)
  {
  }

  lemma InsideLeaf(t: SpecType, test: SpecType -> bool)
    requires IsLeaf(t)
    ensures HasInside(t, test) <==> test(t)
  {
    assert Inside(t, t);
  }

  lemma InsideElements(t: SpecType, test: SpecType -> bool)
    requires !IsLeaf(t)
    ensures HasInside(t, test) <==> test(t) || exists i :: 0 <= i < |Elements(t)| && HasInside(Elements(t)[i], test)
  {
    assert Inside(t, t);
    forall u ensures Inside(u, t) <==> u == t || StandsInAny(u, Elements(t)) {
      StandsInElement(u, t);
    }
    if u :| Inside(u, t) && test(u) {
      if u != t {
        var i :| 0 <= i < |Elements(t)| && Inside(u, Elements(t)[i]);
        assert HasInside(Elements(t)[i], test);
      }
    }
  }

  lemma StandsInElement(u: SpecType, t: SpecType)
    requires !IsLeaf(t)
    ensures Inside(u, t) <==> u == t || StandsInAny(u, Elements(t))
  {
    if t.TVec? || t.TOption? {
      StandsInOne(u, Elements(t)[0]);
    } else if t.TMap? || t.TResult? {
      StandsInTwo(u, Elements(t)[0], Elements(t)[1]);
    }
  }

  predicate StandsInAny(u: SpecType, types: seq<SpecType>) { exists i :: 0 <= i < |types| && Inside(u, types[i]) }

  lemma StandsInOne(u: SpecType, a: SpecType)
    ensures StandsInAny(u, [a]) <==> Inside(u, a)
  {
    assert [a][0] == a;
  }

  lemma StandsInTwo(u: SpecType, a: SpecType, b: SpecType)
    ensures StandsInAny(u, [a, b]) <==> Inside(u, a) || Inside(u, b)
  {
    assert [a, b][0] == a && [a, b][1] == b;
  }

  lemma {:induction false} ElementsRequest(types: seq<SpecType>, whole: SpecType, crypto: Crypto, name: Name)
    requires forall i :: 0 <= i < |types| ==> types[i] < whole
    ensures name in RequestsAll(types, crypto) <==> exists i :: 0 <= i < |types| && HasInside(types[i], Asking(name, crypto))
    decreases whole, |types|
  {
    if types != [] {
      RequestsExactly(types[0], crypto, name);
      ElementsRequest(types[1..], whole, crypto, name);
      SomeOf(types, Asking(name, crypto));
    }
  }

  lemma SomeOf(types: seq<SpecType>, test: SpecType -> bool)
    requires types != []
    ensures (exists i :: 0 <= i < |types| && HasInside(types[i], test)) <==>
            HasInside(types[0], test) || exists i :: 0 <= i < |types| - 1 && HasInside(types[1..][i], test)
  {
    if i :| 0 <= i < |types| && HasInside(types[i], test) {
      if i > 0 { assert types[1..][i - 1] == types[i]; }
    }
    if i :| 0 <= i < |types| - 1 && HasInside(types[1..][i], test) { assert types[i + 1] == types[1..][i]; }
  }

  // ---------------------------------------------------------------------
  // Type definitions
  // ---------------------------------------------------------------------

  predicate IsByteArrayOrWide(t: SpecType) { t == TU256 || t.TBytesN? }

  /** Every field name is a number of 64 bits in decimal, with or without a plus sign. */
  predicate HasPositions(fields: seq<Hinted>) {
    forall i :: 0 <= i < |fields| ==> fields[i].hint.Some? && IsNumber64(fields[i].hint.value)
  }

  predicate IsNumber64(w: string) { w != "" && (IsDigits64(w) || (w[0] == '+' && IsDigits64(w[1..]))) }

  predicate IsDigits64(w: string) { w != "" && AllDigits(w) && DecimalValue(w) < 0x1_0000_0000_0000_0000 }

  /** A definition is rendered with aliases exactly if a curve is in use and it is a struct with named
      fields, one of which is a sized byte array, a wide integer or a vector of these. */
  lemma RegeneratedExactly(item: Item, crypto: Crypto)
    ensures IsRegenerated(item, crypto) <==>
            && crypto != Crypto(false, false) && item.StructItem? && !HasPositions(item.fields)
            && exists i :: 0 <= i < |item.fields| &&
                 (|| IsByteArrayOrWide(item.fields[i].t)
                  || (item.fields[i].t.TVec? && IsByteArrayOrWide(item.fields[i].t.element)))
  {
    forall t: SpecType ensures IsByteArrayOrWide(t) <==> IsSizedOrWide(t) {}
    if item.StructItem? {
      forall i | 0 <= i < |item.fields|
        ensures IsPosition(item.fields[i].hint) <==> item.fields[i].hint.Some? && IsNumber64(item.fields[i].hint.value)
      {
        if item.fields[i].hint.Some? { PositionExactly(item.fields[i].hint.value); }
      }
    }
  }

  lemma PositionExactly(w: string)
    ensures IsPosition(Some(w)) <==> IsNumber64(w)
  {
  }

  /** Definitions rendered plainly have the texts of the types, without the path of `Val` and `Error`. */
  lemma PlainLeafTexts(t: SpecType)
    requires IsLeaf(t)
    ensures Text(GeneratePlain(t)) == if t == TVal then "Val" else if t == TError then "Error" else TextOf(t)
  {
    SdkText(Val);
    SdkText(Error);
  }

  /** The names of the curves in use are brought in, each with its own list. */
  lemma ExtraExactly(crypto: Crypto, name: Name)
    ensures name in ExtraImports(crypto) <==>
            || (crypto.bn254 && (name == Bn254G1Affine || name == Bn254G2Affine || name == Fr))
            || (crypto.bls12381 && (name == Bls12381Fp || name == Bls12381Fp2 || name == Bls12381G1Affine
                                    || name == Bls12381G2Affine || name == Fr))
  {
  }
}
