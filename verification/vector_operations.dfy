/** The bounds-checked fixed-length splice `vector_operations::replace`,
    used by the single-field write and by the flash layer's sector update. */
module VectorOperations {
  import opened Errors

  /** `data` with the range `[position, position + |r|)` overwritten by `r`:
      the erase-then-insert of the source once the bounds check has passed. */
  function Splice<T>(data: seq<T>, r: seq<T>, position: nat): (s: seq<T>)
    requires position + |r| <= |data|
    ensures |s| == |data|
    ensures s[position..position + |r|] == r
    ensures forall k :: 0 <= k < |data| && !(position <= k < position + |r|) ==> s[k] == data[k]
  {
    data[..position] + r + data[position + |r|..]
  }

  /** `replace(&data, r, position)`: fails, leaving `data` as it was, when the
      replacement would run past the end; otherwise splices `r` in. A negative
      position is undefined behaviour in the source, hence `nat`. */
  function Replace<T>(data: seq<T>, r: seq<T>, position: nat): (res: Result<seq<T>>)
    ensures res.Err? <==> position + |r| > |data|
    ensures res.Err? ==> res.error == CannotReplace
    ensures res.Ok? ==> |res.value| == |data|
    ensures res.Ok? ==> res.value[position..position + |r|] == r
    ensures res.Ok? ==> forall k :: 0 <= k < |data| && !(position <= k < position + |r|) ==> res.value[k] == data[k]
  {
    if position + |r| > |data| then Err(CannotReplace)
    else Ok(Splice(data, r, position))
  }

  /** Writing back what is already there changes nothing. */
  lemma ReplaceWithCurrentContents<T>(data: seq<T>, position: nat, n: nat)
    requires position + n <= |data|
    ensures Replace(data, data[position..position + n], position) == Ok(data)
  {
    var s := Splice(data, data[position..position + n], position);
    forall k | 0 <= k < |data|
      ensures s[k] == data[k]
    {
      if position <= k < position + n {
        assert s[k] == s[position..position + n][k - position];
      }
    }
    assert s == data;
  }

  /** An empty replacement at any in-range position changes nothing. */
  lemma ReplaceWithEmpty<T>(data: seq<T>, position: nat)
    requires position <= |data|
    ensures Replace(data, [], position) == Ok(data)
  {
    assert Splice(data, [], position) == data;
  }
}
