/**
 Connection headers: the list of (name, value) byte-string pairs a scope
 carries, and Python's `dict(pairs)` over it, in which a later pair
 overwrites an earlier pair with the same name.
 */
module Headers {
  import opened Words

  datatype Header = Header(name: Bytes, value: Bytes)

  /** Some pair of `hs` is named `name`. */
  predicate HasNamed(hs: seq<Header>, name: Bytes) {
    exists i :: 0 <= i < |hs| && hs[i].name == name
  }

  /** `hs[i]` is the last pair named `name`. */
  predicate IsLastNamed(hs: seq<Header>, name: Bytes, i: int) {
    && 0 <= i < |hs|
    && hs[i].name == name
    && forall j :: i < j < |hs| ==> hs[j].name != name
  }

  /** `dict(hs)`, built pair by pair from the front as Python builds it. */
  function ToDict(hs: seq<Header>): map<Bytes, Bytes>
    decreases |hs|
  {
    if |hs| == 0 then map[]
    else ToDict(hs[..|hs| - 1])[hs[|hs| - 1].name := hs[|hs| - 1].value]
  }

  /** A name is a key of `dict(hs)` exactly when some pair carries it, and
      it is then bound to the value of the last such pair. */
  lemma {:induction false} ToDictLastWins(hs: seq<Header>, name: Bytes)
    ensures name in ToDict(hs) <==> HasNamed(hs, name)
    ensures name in ToDict(hs) ==>
      exists i :: IsLastNamed(hs, name, i) && ToDict(hs)[name] == hs[i].value
    decreases |hs|
  {
    if |hs| > 0 {
      var init := hs[..|hs| - 1];
      var last := hs[|hs| - 1];
      assert forall i :: 0 <= i < |init| ==> init[i] == hs[i];
      ToDictLastWins(init, name);
      if last.name == name {
        assert IsLastNamed(hs, name, |hs| - 1);
      } else {
        if HasNamed(hs, name) {
          var i :| 0 <= i < |hs| && hs[i].name == name;
          assert init[i].name == name;
        }
        if name in ToDict(init) {
          var i :| IsLastNamed(init, name, i) && ToDict(init)[name] == init[i].value;
          assert IsLastNamed(hs, name, i);
        }
      }
    }
  }

  /** The value `dict(hs)` binds to a name is the one of its last pair. */
  lemma LastPairDecides(hs: seq<Header>, name: Bytes, i: int)
    requires IsLastNamed(hs, name, i)
    ensures name in ToDict(hs) && ToDict(hs)[name] == hs[i].value
  {
    ToDictLastWins(hs, name);
  }
}
