/** The mutable `NodeCache` and `GreenNodeBuilder`, proved to make the steps of BuilderSpec. */
module Builder {
  import opened Base
  import opened Interning
  import opened Green
  import opened BuilderSpec
  import opened Programs

  class NodeCache {
    const lang: Language
    const interner: TokenInterner
    var nodes: map<Head, GreenNode>
    var tokens: map<GreenToken, GreenToken>

    ghost function View(): Cache
      reads this, interner
    {
      Cache(nodes, tokens, interner.View())
    }

    ghost predicate Valid()
      reads this, interner
    {
      interner.valid == lang.valid && ValidCache(lang, View())
    }

    constructor (lang: Language)
      ensures this.lang == lang && Valid() && View() == EMPTY_CACHE
      ensures fresh(this) && fresh(interner)
    {
      this.lang := lang;
      interner := new TokenInterner(lang.valid);
      nodes, tokens := map[], map[];
    }

    /** Builds the node for `children[offset..]`, or finds one with its head; returns what is left
        of `children`. */
    method Node(kind: u32, children: seq<Element>, offset: nat) returns (node: GreenNode, rest: seq<Element>)
      requires Valid() && offset <= |children|
      requires AllGood(lang, interner.values, children)
      modifies this`nodes
      ensures Valid()
      ensures (node, View()) == CacheNode(lang.hasher, old(View()), kind, children[offset..])
      ensures rest == children[..offset]
    {
      var drained := children[offset..];
      var textLen, childHash := Summarise(lang.hasher, drained);
      CacheNodeKeepsHeads(lang, View(), kind, drained);
      rest := children[..offset];
      if |drained| <= CHILDREN_CACHE_THRESHOLD {
        node := GetCachedNode(Head(kind, textLen, childHash), drained);
      } else {
        node := Element.Node(Head(kind, textLen, childHash), drained);
      }
    }

    method GetCachedNode(head: Head, children: seq<Element>) returns (node: GreenNode)
      modifies this`nodes
      ensures node == if head in old(nodes) then old(nodes)[head] else Element.Node(head, children)
      ensures nodes == old(nodes)[head := node]
      ensures head in old(nodes) ==> nodes == old(nodes)
    {
      if head !in nodes {
        nodes := nodes[head := Element.Node(head, children)];
      }
      node := nodes[head];
    }

    method Token(kind: u32, key: Option<TokenKey>, len: u32) returns (token: GreenToken)
      requires Valid()
      modifies this`tokens
      ensures Valid()
      ensures (token, View()) == CacheToken(old(View()), GreenToken(kind, key, len))
    {
      var data := GreenToken(kind, key, len);
      if data !in tokens {
        tokens := tokens[data := data];
      }
      token := tokens[data];
    }
  }

  class GreenNodeBuilder {
    const cache: NodeCache
    var parents: seq<Parent>
    var children: seq<Element>

    ghost function View(): State
      reads this, cache, cache.interner
    {
      State(parents, children, cache.View())
    }

    ghost predicate Valid()
      reads this, cache, cache.interner
    {
      cache.interner.valid == cache.lang.valid && ValidState(cache.lang, View())
    }

    ghost function Repr(): set<object> {
      {this, cache, cache.interner}
    }

    /** A builder on a cache that earlier builders may have used. */
    constructor WithCache(cache: NodeCache)
      requires cache.Valid()
      ensures this.cache == cache && Valid() && View() == NewState(cache.View())
      ensures fresh(this)
    {
      this.cache := cache;
      parents, children := [], [];
    }

    /** `false` is a panic: the interner's key space is used up, or it rejects the data. */
    method Token(kind: u32, data: bytes) returns (ok: bool)
      requires Valid()
      modifies Repr()
      ensures Valid()
      ensures AddToken(cache.lang, old(View()), kind, data) == if ok then Some(View()) else None
      ensures !ok ==> View() == old(View())
    {
      AddTokenKeepsValid(cache.lang, View(), kind, data);
      InternIsInverse(cache.lang.valid, cache.interner.View(), data);
      ValidStateGrows(cache.lang, View(), Intern(cache.lang.valid, cache.interner.View(), data).1);
      var token;
      match cache.lang.staticData(kind) {
        case Some(text) =>
          token := cache.Token(kind, None, Wrap(|text|));
        case None =>
          var key := cache.interner.TryGetOrInternBytes(data);
          if key.Err? {
            return false;
          }
          token := cache.Token(kind, Some(key.value), Wrap(|data|));
      }
      children := children + [Element.Token(token)];
      return true;
    }

    /** `false` is the panic for a kind without fixed text. */
    method StaticToken(kind: u32) returns (ok: bool)
      requires Valid()
      modifies Repr()
      ensures Valid()
      ensures AddStaticToken(cache.lang, old(View()), kind) == if ok then Some(View()) else None
      ensures !ok ==> View() == old(View())
    {
      AddTokenKeepsValid(cache.lang, View(), kind, []);
      match cache.lang.staticData(kind) {
        case None =>
          return false;
        case Some(text) =>
          var token := cache.Token(kind, None, Wrap(|text|));
          children := children + [Element.Token(token)];
          return true;
      }
    }

    method StartNode(kind: u32)
      requires Valid()
      modifies this`parents
      ensures Valid() && View() == BuilderSpec.StartNode(old(View()), kind)
    {
      parents := parents + [Parent(kind, |children|)];
    }

    /** `false` is the panic for a builder with no open node. */
    method FinishNode() returns (ok: bool)
      requires Valid()
      modifies Repr()
      ensures Valid()
      ensures BuilderSpec.FinishNode(cache.lang, old(View())) == if ok then Some(View()) else None
      ensures !ok ==> View() == old(View())
    {
      FinishNodeKeepsValid(cache.lang, View());
      if parents == [] {
        return false;
      }
      var Parent(kind, firstChild) := parents[|parents| - 1];
      parents := parents[..|parents| - 1];
      var node, rest := cache.Node(kind, children, firstChild);
      children := rest + [node];
      return true;
    }

    method TakeCheckpoint() returns (cp: Checkpoint)
      ensures cp == BuilderSpec.TakeCheckpoint(View())
    {
      cp := Checkpoint(|parents|, |children|);
    }

    /** `false` is a failed assert. */
    method RevertTo(cp: Checkpoint) returns (ok: bool)
      requires Valid()
      modifies this
      ensures Valid()
      ensures BuilderSpec.RevertTo(old(View()), cp) == if ok then Some(View()) else None
      ensures !ok ==> View() == old(View())
    {
      CheckpointsKeepValid(cache.lang, View(), cp, 0);
      if cp.parentIdx > |parents| || cp.childIdx > |children| {
        return false;
      }
      if parents != [] && cp.childIdx < parents[|parents| - 1].firstChild {
        return false;
      }
      parents := parents[..cp.parentIdx];
      children := children[..cp.childIdx];
      return true;
    }

    /** `false` is a failed assert. */
    method StartNodeAt(cp: Checkpoint, kind: u32) returns (ok: bool)
      requires Valid()
      modifies this
      ensures Valid()
      ensures BuilderSpec.StartNodeAt(old(View()), cp, kind) == if ok then Some(View()) else None
      ensures !ok ==> View() == old(View())
    {
      CheckpointsKeepValid(cache.lang, View(), cp, kind);
      if cp.parentIdx > |parents| || cp.parentIdx < |parents| || cp.childIdx > |children| {
        return false;
      }
      if parents != [] && cp.childIdx < parents[|parents| - 1].firstChild {
        return false;
      }
      parents := parents + [Parent(kind, cp.childIdx)];
      return true;
    }

    /** `None` is the panic for anything but one node. */
    method Finish() returns (root: Option<GreenNode>)
      ensures root == BuilderSpec.Finish(View())
    {
      if |children| != 1 {
        return None;
      }
      match children[0] {
        case Node(_, _) => return Some(children[0]);
        case Token(_) => return None;
      }
    }
  }
}
