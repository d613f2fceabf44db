/** The cSHAKE128 primitive that src/parallel_hash.rs takes from the `sha3` and
    `digest` crates, as an opaque context. A context remembers its function name,
    its customization string and every byte absorbed into it; absorbing appends.
    The sponge itself is not modelled: squeezing is any function of the context
    and the requested length that returns exactly that many bytes, and the
    engine is built over such a function, supplied by its caller. */
module CShake {
  import opened Utils

  datatype Context = Context(functionName: seq<Byte>, customization: seq<Byte>, absorbed: seq<Byte>)

  /** `CShake128Core::new_with_function_name(name, custom)`: nothing absorbed yet. */
  function Create(functionName: seq<Byte>, customization: seq<Byte>): Context
  {
    Context(functionName, customization, [])
  }

  /** `state.update(data)`. */
  function Absorb(c: Context, data: seq<Byte>): Context
  {
    c.(absorbed := c.absorbed + data)
  }

  /** `finalize_xof()` followed by `read` into an `n`-byte buffer: whatever the
      primitive squeezes, it squeezes exactly `n` bytes. */
  type Xof = squeeze: (Context, nat) -> seq<Byte> | forall c, n :: |squeeze(c, n)| == n
    witness (c: Context, n: nat) => seq(n, _ => 0)

  /** Absorbing twice is absorbing the concatenation. */
  lemma AbsorbTwice(c: Context, a: seq<Byte>, b: seq<Byte>)
    ensures Absorb(Absorb(c, a), b) == Absorb(c, a + b)
  {
    assert c.absorbed + a + b == c.absorbed + (a + b);
  }
}
