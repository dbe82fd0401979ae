/**
 * One state of the automaton (src/dict/node.rs).  The `Rc`/`Weak` pointers of
 * node.rs become indices into an arena of nodes (see module Tries): a child
 * is an index in `children`, and `parent` and `suffix` are optional indices.
 */
module DictNodes {
  import opened Wrappers

  /** What a node outputs: not a word, the root, or the word that ends here. */
  datatype Word = No | Root | Yes(text: seq<char>)

  /**
   * The failures of the crate's error enum: `DictSetError` (a word that is not in
   * the trie), `ParseNodeError` (a missing node pointer) and `ParseWeakError`
   * (a missing parent or suffix link).
   */
  datatype Error = DictSetError | ParseNodeError | ParseWeakError

  datatype DictNode = DictNode(
    state: char,
    output: Word,
    parent: Option<nat>,
    suffix: Option<nat>,
    children: map<char, nat>)
  {
    /** `DictNode::new`: a non-root node with no links and no children. */
    static function New(state: char): (n: DictNode)
      ensures n.state == state && n.output == No
      ensures !n.IsRoot() && n.GetChildren() == {}
      ensures forall c :: !n.HasChild(c)
      ensures n.TryParent() == Failure(ParseWeakError) && n.TrySuffix() == Failure(ParseWeakError)
    {
      DictNode(state, No, None, None, map[])
    }

    /** `DictNode::root`: state NUL, output `Root`, no links and no children. */
    static function Root(): (n: DictNode)
      ensures n.state == '\0' && n.IsRoot()
      ensures n.GetChildren() == {}
      ensures forall c :: !n.HasChild(c)
      ensures n.TryParent() == Failure(ParseWeakError) && n.TrySuffix() == Failure(ParseWeakError)
    {
      DictNode('\0', Word.Root, None, None, map[])
    }

    /** `is_root`: the output is `Root`. */
    predicate IsRoot() {
      output.Root?
    }

    /** `is_word`, which dict_set.rs calls and node.rs does not define: the output is a word. */
    predicate IsWord() {
      output.Yes?
    }

    /** `has_child`: there is an entry for `c`. */
    predicate HasChild(c: char) {
      c in children
    }

    /** `get_child`: the entry for `c`, if there is one. */
    function GetChild(c: char): (r: Option<nat>)
      ensures r.Some? <==> HasChild(c)
      ensures r.Some? ==> r.value == children[c]
    {
      if c in children then Some(children[c]) else None
    }

    /** `get_children`: every child, once (in no particular order). */
    function GetChildren(): (r: set<nat>)
      ensures forall c | HasChild(c) :: children[c] in r
      ensures forall j | j in r :: exists c | HasChild(c) :: children[c] == j
    {
      children.Values
    }

    /** The entry update `add_child` makes: `c` now leads to `child`. */
    function WithChild(c: char, child: nat): (n: DictNode)
      ensures n.HasChild(c) && n.children[c] == child
      ensures forall d | d != c :: n.HasChild(d) == HasChild(d)
      ensures forall d | d != c && HasChild(d) :: n.HasChild(d) && n.children[d] == children[d]
      ensures n.state == state && n.output == output && n.parent == parent && n.suffix == suffix
    {
      this.(children := children[c := child])
    }

    /** `try_parent`: the parent link, or `ParseWeakError` when there is none. */
    function TryParent(): (r: Result<nat, Error>)
      ensures r.Failure? <==> parent.None?
      ensures r.Failure? ==> r.error == ParseWeakError
      ensures r.Success? ==> parent == Some(r.value)
    {
      match parent
      case None => Failure(ParseWeakError)
      case Some(p) => Success(p)
    }

    /** `try_suffix`: the suffix link, or `ParseWeakError` when there is none. */
    function TrySuffix(): (r: Result<nat, Error>)
      ensures r.Failure? <==> suffix.None?
      ensures r.Failure? ==> r.error == ParseWeakError
      ensures r.Success? ==> suffix == Some(r.value)
    {
      match suffix
      case None => Failure(ParseWeakError)
      case Some(s) => Success(s)
    }
  }
}
