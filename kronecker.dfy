/** `KroneckerLayer`: the product layer whose output is the flattened outer product of its
    inputs. Only the unit-count rule and the constructor's argument checks are modelled. */
module Kronecker {
  import opened Wrappers
  import opened Reparams

  /** `base ** exp` on Python integers, for a non-negative exponent. */
  function Pow(base: int, exp: nat): int {
    if exp == 0 then 1 else base * Pow(base, exp - 1)
  }

  /** `_infer_num_prod_units`: the number of product units, `num_input_units ** arity`. */
  function InferNumProdUnits(numInputUnits: int, arity: nat := 2): (r: int)
    ensures arity == 0 ==> r == 1
    ensures arity == 2 ==> r == numInputUnits * numInputUnits
    ensures numInputUnits >= 0 ==> r >= 0
  {
    PowNonNegative(numInputUnits, arity);
    assert Pow(numInputUnits, 1) == numInputUnits;
    Pow(numInputUnits, arity)
  }

  lemma {:induction false} PowNonNegative(base: int, exp: nat)
    ensures base >= 0 ==> Pow(base, exp) >= 0
  {
    if exp > 0 {
      PowNonNegative(base, exp - 1);
    }
  }

  /** The width of the flattened outer product of inputs of the given widths: the forward
      pass stacks `x0[..., :, None]` against `x1[..., None, :]` and flattens the last two axes. */
  function OuterProductWidth(widths: seq<nat>): nat {
    if widths == [] then 1 else widths[0] * OuterProductWidth(widths[1..])
  }

  /** The inferred unit count is the forward output width for `arity` inputs of `K` units. */
  lemma {:induction false} InferMatchesForwardWidth(k: nat, arity: nat)
    ensures InferNumProdUnits(k, arity) == OuterProductWidth(seq(arity, _ => k))
  {
    if arity > 0 {
      InferMatchesForwardWidth(k, arity - 1);
      assert seq(arity, _ => k)[1..] == seq(arity - 1, _ => k);
    }
  }

  /** Multiplying arities multiplies unit counts: `K ** (a + b) == K ** a * K ** b`. */
  lemma {:induction false} InferAdditive(k: int, a: nat, b: nat)
    ensures InferNumProdUnits(k, a + b) == InferNumProdUnits(k, a) * InferNumProdUnits(k, b)
  {
    if a > 0 {
      InferAdditive(k, a - 1, b);
      assert Pow(k, a + b) == k * Pow(k, a - 1 + b);
    }
  }

  /** What the constructor raises. */
  datatype LayerError =
    | UnitMismatch        // AssertionError: output units must be input units ** arity
    | ArityNotImplemented // NotImplementedError: only binary products are implemented

  /** The arguments a constructed layer hands to its `ProductLayer` base. */
  datatype KroneckerLayer = KroneckerLayer(
    numInputUnits: int, numOutputUnits: int, arity: nat, reparam: Option<Reparameterization>)

  /** `KroneckerLayer.__init__`: the unit check runs first, then the arity check; on success
      the unit counts and the arity are forwarded and the given reparameterization ignored. */
  function NewKroneckerLayer(numInputUnits: int, numOutputUnits: int, arity: nat := 2,
                             reparam: Option<Reparameterization> := None)
    : (r: Result<KroneckerLayer, LayerError>)
    ensures r == Err(UnitMismatch) <==> numOutputUnits != InferNumProdUnits(numInputUnits, arity)
    ensures r == Err(ArityNotImplemented) <==>
      numOutputUnits == InferNumProdUnits(numInputUnits, arity) && arity != 2
    ensures r.Ok? ==> r.value.arity == 2 && r.value.numInputUnits == numInputUnits
    ensures r.Ok? ==> r.value.numOutputUnits == numInputUnits * numInputUnits
    ensures r.Ok? ==> r.value.numOutputUnits == numOutputUnits && r.value.reparam == None
  {
    if numOutputUnits != Pow(numInputUnits, arity) then Err(UnitMismatch)
    else if arity != 2 then Err(ArityNotImplemented)
    else Ok(KroneckerLayer(numInputUnits, numOutputUnits, arity, None))
  }

  /** A binary Kronecker layer built with the inferred unit count is always accepted. */
  lemma InferredCountIsAccepted(k: int, reparam: Option<Reparameterization>)
    ensures NewKroneckerLayer(k, InferNumProdUnits(k), 2, reparam).Ok?
  {
  }
}
