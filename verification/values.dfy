/** The value graph that crosses the synchronous-access bridge. */
module Values {

  /** A non-container, non-callable leaf: Python's None, booleans, numbers, strings
      and any other object that is neither a dict, a list, a tuple nor callable. */
  datatype Atom = NoneAtom | BoolAtom(b: bool) | IntAtom(i: int) | StrAtom(s: string) | ObjectAtom(id: nat)

  /** A callable as the bridge sees it: an original function of the client or of the
      caller, or an adapter produced by convert_async_to_sync (ToSync) or by
      convert_sync_to_async (ToAsync) around another callable. */
  datatype FnRep = Orig(id: nat) | ToSync(inner: FnRep) | ToAsync(inner: FnRep)

  /** A node of the object graph. Lists and tuples are kept apart because the
      transform treats them alike but returns only lists. */
  datatype Value =
    | Scalar(atom: Atom)
    | Dict(entries: map<string, Value>)
    | List(items: seq<Value>)
    | Tuple(items: seq<Value>)
    | Fn(f: FnRep)
  {
    predicate IsSequence() { List? || Tuple? }
  }

  /** One step of navigation into a graph: a key of a dict or an index of a list or tuple. */
  datatype Step = Key(k: string) | Index(i: nat)

  datatype Option<T> = None | Some(value: T)

  /** The node reached from `v` by following `p`, if every step exists. */
  function At(v: Value, p: seq<Step>): Option<Value>
    decreases |p|
  {
    if p == [] then Some(v)
    else match (v, p[0])
      case (Dict(m), Key(k)) => if k in m then At(m[k], p[1..]) else None
      case (List(s), Index(i)) => if i < |s| then At(s[i], p[1..]) else None
      case (Tuple(s), Index(i)) => if i < |s| then At(s[i], p[1..]) else None
      case _ => None
  }

  /** Following `p` and then `q` is following `p + q`. */
  lemma {:induction false} AtConcat(v: Value, p: seq<Step>, q: seq<Step>)
    ensures At(v, p + q) == (match At(v, p) case None => None case Some(x) => At(x, q))
    decreases |p|
  {
    if p != [] {
      assert (p + q)[0] == p[0] && (p + q)[1..] == p[1..] + q;
      match (v, p[0])
      case (Dict(m), Key(k)) =>
        if k in m { AtConcat(m[k], p[1..], q); }
      case (List(s), Index(i)) =>
        if i < |s| { AtConcat(s[i], p[1..], q); }
      case (Tuple(s), Index(i)) =>
        if i < |s| { AtConcat(s[i], p[1..], q); }
      case _ =>
    } else {
      assert p + q == q;
    }
  }

  /** Every path that leads to a node of `v` (the empty path leads to `v` itself). */
  ghost function Paths(v: Value): set<seq<Step>>
  {
    match v
    case Dict(m) => {[]} + (set k, p | k in m && p in Paths(m[k]) :: [Key(k)] + p)
    case List(s) => {[]} + (set i, p | 0 <= i < |s| && p in Paths(s[i]) :: [Index(i)] + p)
    case Tuple(s) => {[]} + (set i, p | 0 <= i < |s| && p in Paths(s[i]) :: [Index(i)] + p)
    case _ => {[]}
  }

  /** The paths that lead to a callable leaf. */
  ghost function CallablePaths(v: Value): set<seq<Step>>
  {
    match v
    case Dict(m) => set k, p | k in m && p in CallablePaths(m[k]) :: [Key(k)] + p
    case List(s) => set i, p | 0 <= i < |s| && p in CallablePaths(s[i]) :: [Index(i)] + p
    case Tuple(s) => set i, p | 0 <= i < |s| && p in CallablePaths(s[i]) :: [Index(i)] + p
    case Fn(_) => {[]}
    case Scalar(_) => {}
  }

  /** The number of callable leaves of `v`. */
  ghost function CallableCount(v: Value): nat
  {
    |CallablePaths(v)|
  }

  /** The length of the longest path in `v`: its nesting depth. */
  ghost function Depth(v: Value): nat
  {
    MaxLength(Paths(v))
  }

  ghost function MaxLength(ps: set<seq<Step>>): (n: nat)
    ensures forall p :: p in ps ==> |p| <= n
    ensures ps != {} ==> exists p :: p in ps && |p| == n
    decreases |ps|
  {
    if ps == {} then 0
    else
      var p :| p in ps;
      var rest := MaxLength(ps - {p});
      if |p| < rest then rest else |p|
  }

  /** True when no tuple occurs anywhere in `v`. */
  predicate TupleFree(v: Value)
  {
    match v
    case Dict(m) => forall k :: k in m ==> TupleFree(m[k])
    case List(s) => forall i :: 0 <= i < |s| ==> TupleFree(s[i])
    case Tuple(_) => false
    case _ => true
  }

  /** True when no callable occurs anywhere in `v`. */
  predicate CallableFree(v: Value)
  {
    match v
    case Dict(m) => forall k :: k in m ==> CallableFree(m[k])
    case List(s) => forall i :: 0 <= i < |s| ==> CallableFree(s[i])
    case Tuple(s) => forall i :: 0 <= i < |s| ==> CallableFree(s[i])
    case Fn(_) => false
    case Scalar(_) => true
  }

  /** The result of an invocation: the value it returned or the message of the
      exception it raised. */
  datatype Outcome = Returned(value: Value) | Raised(error: string)
}
