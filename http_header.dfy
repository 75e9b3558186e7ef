/**
 * The part of net/http's `Header` type (a map from a header name to its list of
 * values) that the middleware and the JSON helper use. Keys are taken as given:
 * the canonicalisation that `Header.Add` and `Header.Set` apply to their key is
 * not modelled, and every key the model passes is already canonical.
 */
module HttpHeader {

  type Header = map<string, seq<string>>

  /** All values recorded under `key`, none when the key is absent. */
  function Values(h: Header, key: string): (vs: seq<string>)
  {
    if key in h then h[key] else []
  }

  /** `Header.Get`: the first value under `key`, or "" when there is none. */
  function Get(h: Header, key: string): (v: string)
  {
    if key in h && |h[key]| > 0 then h[key][0] else ""
  }

  /** `Header.Add`: appends `value` to the values under `key`, and touches no other key. */
  function Add(h: Header, key: string, value: string): (r: Header)
    ensures Values(r, key) == Values(h, key) + [value]
    ensures forall k :: k != key ==> Values(r, k) == Values(h, k)
  {
    h[key := Values(h, key) + [value]]
  }

  /** `Header.Set`: replaces the values under `key` by the single `value`, and touches no other key. */
  function Set(h: Header, key: string, value: string): (r: Header)
    ensures Values(r, key) == [value]
    ensures forall k :: k != key ==> Values(r, k) == Values(h, k)
  {
    h[key := [value]]
  }
}
