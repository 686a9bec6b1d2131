/**
  The `text_enum!` macro of src/search.rs: a closed enumeration whose
  variants each stand for exactly one literal. The macro produces an
  infallible encoder (`Display`) and a partial decoder (`FromStr`) that
  matches its input exactly against the literals, arm by arm, and returns a
  unit error for anything else.

  Here an instance of the macro is a `Codec`: the variants in declaration
  order together with the encoder. The decoder is derived from them, so
  each literal is written in one place only.
 */
module TextEnum {
  import opened Results

  /** The arms of a `text_enum!` declaration. */
  datatype Codec<!V(==,!new)> = Codec(variants: seq<V>, encode: V -> string) {

    /** Every value of the enumeration is declared, and no two values
        carry the same literal. */
    ghost predicate WellFormed() {
      && (forall v: V :: v in variants)
      && (forall a: V, b: V :: encode(a) == encode(b) ==> a == b)
    }
  }

  /** The declared literals of `c`. */
  function Literals<V(!new)>(c: Codec<V>): set<string> {
    set v | v in c.variants :: c.encode(v)
  }

  /** The first of `arms` whose literal is exactly `s` (no trimming, no case
      folding, no prefix match); `None` when no arm matches. */
  function FirstMatch<V>(arms: seq<V>, encode: V -> string, s: string): (r: Option<V>)
    ensures r.Some? ==> r.value in arms && encode(r.value) == s
    ensures r.None? <==> forall k :: 0 <= k < |arms| ==> encode(arms[k]) != s
    ensures r.Some? ==> exists k :: 0 <= k < |arms| && arms[k] == r.value
                         && forall j :: 0 <= j < k ==> encode(arms[j]) != s
  {
    if |arms| == 0 then None
    else if encode(arms[0]) == s then Some(arms[0])
    else
      var r := FirstMatch(arms[1..], encode, s);
      assert forall k :: 1 <= k < |arms| ==> arms[k] == arms[1..][k - 1];
      r
  }

  /** `FromStr::from_str`: the variant of the first arm whose literal equals
      `s`, or the enumeration's unit error `invalid`. */
  function Decode<V(!new), E>(c: Codec<V>, s: string, invalid: E): (r: Result<V, E>)
    ensures r.Ok? ==> r.value in c.variants && c.encode(r.value) == s
    ensures r.Err? <==> s !in Literals(c)
    ensures r.Err? ==> r.error == invalid
  {
    match FirstMatch(c.variants, c.encode, s)
    case Some(v) => Ok(v)
    case None => Err(invalid)
  }

  /** Decoding the literal of a variant gives back that variant. */
  lemma DecodeEncode<V(!new), E>(c: Codec<V>, v: V, invalid: E)
    requires c.WellFormed()
    ensures Decode(c, c.encode(v), invalid) == Ok(v)
  {
    assert v in c.variants;
    assert c.encode(v) in Literals(c);
  }

  /** Decoding fails exactly on the strings that are no variant's literal. */
  lemma DecodeRejects<V(!new), E>(c: Codec<V>, s: string, invalid: E)
    requires c.WellFormed()
    ensures Decode(c, s, invalid) == Err(invalid) <==> forall v: V :: c.encode(v) != s
  {
    if Decode(c, s, invalid).Ok? {
      var w := Decode(c, s, invalid).value;
      assert c.encode(w) == s;
    } else {
      forall v: V ensures c.encode(v) != s {
        assert v in c.variants;
      }
    }
  }
}
