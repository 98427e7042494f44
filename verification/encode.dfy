/** _encode_callables: the structural transform that replaces every callable of a
    value graph by an adapter, leaving the shape of the graph as it was. */
module CallableProxy {
  import opened Values

  /** Rebuilds `v` with the same dict keys and the same sequence order, turning
      tuples into lists and every callable leaf `f` into `wrap(f)`. The dict test
      comes first, then list-or-tuple, then callable; other leaves are returned as
      they are. */
  function Encode(v: Value, wrap: FnRep -> FnRep): (r: Value)
    ensures r.Dict? <==> v.Dict?
    ensures r.Dict? ==> r.entries.Keys == v.entries.Keys
    ensures r.List? <==> v.IsSequence()
    ensures r.List? ==> |r.items| == |v.items|
    ensures r.Fn? <==> v.Fn?
    ensures v.Scalar? ==> r == v
    ensures TupleFree(r)
  {
    match v
    case Dict(m) => Dict(map k | k in m :: Encode(m[k], wrap))
    case List(s) => List(seq(|s|, i requires 0 <= i < |s| => Encode(s[i], wrap)))
    case Tuple(s) => List(seq(|s|, i requires 0 <= i < |s| => Encode(s[i], wrap)))
    case Fn(f) => Fn(wrap(f))
    case Scalar(_) => v
  }

  /** Encoding applied to a node that may be absent. */
  function EncodeOpt(o: Option<Value>, wrap: FnRep -> FnRep): Option<Value>
  {
    match o
    case None => None
    case Some(x) => Some(Encode(x, wrap))
  }

  /** Encoding commutes with navigation: whatever path leads into the input leads
      into the output, to the encoding of the node found there, and no other path
      does. */
  lemma {:induction false} EncodeAt(v: Value, wrap: FnRep -> FnRep, p: seq<Step>)
    ensures At(Encode(v, wrap), p) == EncodeOpt(At(v, p), wrap)
    decreases |p|
  {
    if p != [] {
      match (v, p[0])
      case (Dict(m), Key(k)) =>
        if k in m { EncodeAt(m[k], wrap, p[1..]); }
      case (List(s), Index(i)) =>
        if i < |s| { EncodeAt(s[i], wrap, p[1..]); }
      case (Tuple(s), Index(i)) =>
        if i < |s| { EncodeAt(s[i], wrap, p[1..]); }
      case _ =>
    }
  }

  /** A dict is rebuilt with exactly its keys, each bound to the encoding of the
      value it had. */
  lemma EncodeDict(m: map<string, Value>, wrap: FnRep -> FnRep)
    ensures Encode(Dict(m), wrap).Dict?
    ensures Encode(Dict(m), wrap).entries.Keys == m.Keys
    ensures forall k :: k in m ==> Encode(Dict(m), wrap).entries[k] == Encode(m[k], wrap)
  {
    forall k | k in m
      ensures Encode(Dict(m), wrap).entries[k] == Encode(m[k], wrap)
    {
      EncodeAt(Dict(m), wrap, [Key(k)]);
    }
  }

  /** A list or a tuple becomes a list of the same length whose i-th element is the
      encoding of the i-th element. */
  lemma EncodeSequence(v: Value, wrap: FnRep -> FnRep)
    requires v.IsSequence()
    ensures Encode(v, wrap).List?
    ensures |Encode(v, wrap).items| == |v.items|
    ensures forall i :: 0 <= i < |v.items| ==> Encode(v, wrap).items[i] == Encode(v.items[i], wrap)
  {
    forall i | 0 <= i < |v.items|
      ensures Encode(v, wrap).items[i] == Encode(v.items[i], wrap)
    {
      EncodeAt(v, wrap, [Index(i)]);
    }
  }

  /** Only leaves are rewritten: a callable found at a path is replaced by its
      wrapped form at the same path, and a scalar found at a path is still there. */
  lemma EncodeLeaves(v: Value, wrap: FnRep -> FnRep, p: seq<Step>)
    ensures forall f :: At(v, p) == Some(Fn(f)) ==> At(Encode(v, wrap), p) == Some(Fn(wrap(f)))
    ensures forall a :: At(v, p) == Some(Scalar(a)) ==> At(Encode(v, wrap), p) == Some(Scalar(a))
    ensures (exists f :: At(Encode(v, wrap), p) == Some(Fn(f))) <==> (exists g :: At(v, p) == Some(Fn(g)))
  {
    EncodeAt(v, wrap, p);
    if At(Encode(v, wrap), p).Some? && At(Encode(v, wrap), p).value.Fn? {
      var g := At(v, p).value.f;
      assert At(v, p) == Some(Fn(g));
    }
  }

  /** The encoded graph has exactly the paths of the input: same keys, same lengths
      and same nesting everywhere. */
  lemma {:induction false} EncodePaths(v: Value, wrap: FnRep -> FnRep)
    ensures Paths(Encode(v, wrap)) == Paths(v)
  {
    match v
    case Dict(m) =>
      forall k | k in m ensures Paths(Encode(m[k], wrap)) == Paths(m[k]) {
        EncodePaths(m[k], wrap);
      }
    case List(s) =>
      forall i | 0 <= i < |s| ensures Paths(Encode(s[i], wrap)) == Paths(s[i]) {
        EncodePaths(s[i], wrap);
      }
    case Tuple(s) =>
      forall i | 0 <= i < |s| ensures Paths(Encode(s[i], wrap)) == Paths(s[i]) {
        EncodePaths(s[i], wrap);
      }
    case _ =>
  }

  /** Callables sit at exactly the same paths after encoding as before. */
  lemma {:induction false} EncodeCallablePaths(v: Value, wrap: FnRep -> FnRep)
    ensures CallablePaths(Encode(v, wrap)) == CallablePaths(v)
  {
    match v
    case Dict(m) =>
      forall k | k in m ensures CallablePaths(Encode(m[k], wrap)) == CallablePaths(m[k]) {
        EncodeCallablePaths(m[k], wrap);
      }
    case List(s) =>
      forall i | 0 <= i < |s| ensures CallablePaths(Encode(s[i], wrap)) == CallablePaths(s[i]) {
        EncodeCallablePaths(s[i], wrap);
      }
    case Tuple(s) =>
      forall i | 0 <= i < |s| ensures CallablePaths(Encode(s[i], wrap)) == CallablePaths(s[i]) {
        EncodeCallablePaths(s[i], wrap);
      }
    case _ =>
  }

  /** Encoding keeps the number of callable leaves and the nesting depth. */
  lemma EncodePreservesCountAndDepth(v: Value, wrap: FnRep -> FnRep)
    ensures CallableCount(Encode(v, wrap)) == CallableCount(v)
    ensures Depth(Encode(v, wrap)) == Depth(v)
  {
    EncodeCallablePaths(v, wrap);
    EncodePaths(v, wrap);
  }

  /** Reference definition of what the transform does to the shape: the same graph
      with every tuple turned into a list. */
  function Untuple(v: Value): (r: Value)
    ensures TupleFree(r)
  {
    match v
    case Dict(m) => Dict(map k | k in m :: Untuple(m[k]))
    case List(s) => List(seq(|s|, i requires 0 <= i < |s| => Untuple(s[i])))
    case Tuple(s) => List(seq(|s|, i requires 0 <= i < |s| => Untuple(s[i])))
    case _ => v
  }

  /** A graph without tuples is its own untupled form. */
  lemma {:induction false} UntupleFixesTupleFree(v: Value)
    requires TupleFree(v)
    ensures Untuple(v) == v
  {
    match v
    case Dict(m) =>
      forall k | k in m ensures Untuple(m[k]) == m[k] { UntupleFixesTupleFree(m[k]); }
    case List(s) =>
      forall i | 0 <= i < |s| ensures Untuple(s[i]) == s[i] { UntupleFixesTupleFree(s[i]); }
    case _ =>
  }

  /** With a wrap that changes nothing, encoding only turns tuples into lists. */
  lemma {:induction false} EncodeIdentity(v: Value, wrap: FnRep -> FnRep)
    requires forall f :: wrap(f) == f
    ensures Encode(v, wrap) == Untuple(v)
  {
    match v
    case Dict(m) =>
      forall k | k in m ensures Encode(m[k], wrap) == Untuple(m[k]) { EncodeIdentity(m[k], wrap); }
    case List(s) =>
      forall i | 0 <= i < |s| ensures Encode(s[i], wrap) == Untuple(s[i]) { EncodeIdentity(s[i], wrap); }
    case Tuple(s) =>
      forall i | 0 <= i < |s| ensures Encode(s[i], wrap) == Untuple(s[i]) { EncodeIdentity(s[i], wrap); }
    case _ =>
  }

  /** A graph without tuples and without callables passes through unchanged,
      whatever the wrap. */
  lemma {:induction false} EncodeFixesPlainValues(v: Value, wrap: FnRep -> FnRep)
    requires TupleFree(v) && CallableFree(v)
    ensures Encode(v, wrap) == v
  {
    match v
    case Dict(m) =>
      forall k | k in m ensures Encode(m[k], wrap) == m[k] { EncodeFixesPlainValues(m[k], wrap); }
    case List(s) =>
      forall i | 0 <= i < |s| ensures Encode(s[i], wrap) == s[i] { EncodeFixesPlainValues(s[i], wrap); }
    case _ =>
  }

  /** Encoding twice is encoding once with the composed wrap. */
  lemma {:induction false} EncodeCompose(v: Value, first: FnRep -> FnRep, second: FnRep -> FnRep, both: FnRep -> FnRep)
    requires forall f :: both(f) == second(first(f))
    ensures Encode(Encode(v, first), second) == Encode(v, both)
  {
    match v
    case Dict(m) =>
      forall k | k in m ensures Encode(Encode(m[k], first), second) == Encode(m[k], both) {
        EncodeCompose(m[k], first, second, both);
      }
    case List(s) =>
      forall i | 0 <= i < |s| ensures Encode(Encode(s[i], first), second) == Encode(s[i], both) {
        EncodeCompose(s[i], first, second, both);
      }
    case Tuple(s) =>
      forall i | 0 <= i < |s| ensures Encode(Encode(s[i], first), second) == Encode(s[i], both) {
        EncodeCompose(s[i], first, second, both);
      }
    case _ =>
  }
}
