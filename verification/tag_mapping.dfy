/**
 * The profiling-index to tag mapping, built from the `prof(<index>, "<tag>");`
 * declarations found in the noise-suppression sources.
 */
module TagMapping {
  import opened Wrappers
  import opened Dicts
  import opened ProfileErrors

  /** A source line, already classified: a `prof` declaration or anything else. */
  datatype SourceLine = Decl(index: string, tag: string) | Code

  /** Index text (as written, e.g. "3") to tag, in declaration order. */
  type Mapping = Dict<string, string>

  /** Some index is declared twice, whatever the two tags are. */
  predicate Repeated(src: seq<SourceLine>) {
    exists i, j :: 0 <= i < j < |src| && src[i].Decl? && src[j].Decl? && src[i].index == src[j].index
  }

  /** The declared indices, in order. */
  function DeclIndices(src: seq<SourceLine>): seq<string>
  {
    if |src| == 0 then []
    else DeclIndices(src[..|src| - 1]) + (if src[|src| - 1].Decl? then [src[|src| - 1].index] else [])
  }

  lemma {:induction false} DeclIndicesMember(src: seq<SourceLine>, x: string)
    ensures x in DeclIndices(src) <==> exists j :: 0 <= j < |src| && src[j].Decl? && src[j].index == x
  {
    if |src| > 0 {
      var init := src[..|src| - 1];
      DeclIndicesMember(init, x);
      if x in DeclIndices(init) {
        var j :| 0 <= j < |init| && init[j].Decl? && init[j].index == x;
        assert src[j] == init[j];
      }
      if exists j :: 0 <= j < |src| && src[j].Decl? && src[j].index == x {
        var j :| 0 <= j < |src| && src[j].Decl? && src[j].index == x;
        if j < |init| {
          assert init[j] == src[j];
        }
      }
    }
  }

  /** Declaring one more line repeats an index exactly when its index was declared before. */
  lemma RepeatedSnoc(src: seq<SourceLine>)
    requires |src| > 0
    ensures Repeated(src) <==>
      Repeated(src[..|src| - 1]) || (src[|src| - 1].Decl? && src[|src| - 1].index in DeclIndices(src[..|src| - 1]))
  {
    var init := src[..|src| - 1];
    var last := src[|src| - 1];
    if last.Decl? {
      DeclIndicesMember(init, last.index);
    }
    if Repeated(src) {
      var i, j :| 0 <= i < j < |src| && src[i].Decl? && src[j].Decl? && src[i].index == src[j].index;
      assert src[i] == init[i];
      if j < |src| - 1 {
        assert src[j] == init[j];
      }
    }
    if Repeated(init) {
      var i, j :| 0 <= i < j < |init| && init[i].Decl? && init[j].Decl? && init[i].index == init[j].index;
      assert src[i] == init[i] && src[j] == init[j];
    }
    if last.Decl? && last.index in DeclIndices(init) {
      var i :| 0 <= i < |init| && init[i].Decl? && init[i].index == last.index;
      assert src[i] == init[i];
    }
  }

  /** A mapped index comes from an earlier declaration carrying the mapped tag. */
  lemma DeclaredEarlier(src: seq<SourceLine>, m: Mapping, x: string)
    requires Keys(m) == DeclIndices(src)
    requires forall j :: 0 <= j < |src| && src[j].Decl? ==> Get(m, src[j].index) == Some(src[j].tag)
    requires Get(m, x).Some?
    ensures exists a :: 0 <= a < |src| && src[a] == Decl(x, Get(m, x).value)
  {
    DeclIndicesMember(src, x);
    var a :| 0 <= a < |src| && src[a].Decl? && src[a].index == x;
    assert src[a] == Decl(x, Get(m, x).value);
  }

  /**
   * `m` is the mapping of `src`: one entry per declared index, in declaration
   * order, and each declaration's index looks up its tag.
   */
  predicate Built(src: seq<SourceLine>, m: Mapping) {
    DistinctKeys(m) && Keys(m) == DeclIndices(src) && Lookups(src, m)
  }

  /** Each declaration's index looks up its tag in `m`. */
  predicate Lookups(src: seq<SourceLine>, m: Mapping) {
    forall j :: 0 <= j < |src| && src[j].Decl? ==> Get(m, src[j].index) == Some(src[j].tag)
  }

  /** `e` reports an index declared at two lines of `src`, with the tags of both. */
  predicate Witnessed(src: seq<SourceLine>, e: ProfileError) {
    && e.DuplicateIndex?
    && exists a, b :: 0 <= a < b < |src| && src[a] == Decl(e.index, e.firstTag) && src[b] == Decl(e.index, e.secondTag)
  }

  /**
   * Collect `index -> tag` over all declarations, in order; an index seen
   * before is fatal even when both declarations carry the same tag.
   * Written as a fold over the prefix, so that each step is the loop body.
   */
  function BuildMapping(src: seq<SourceLine>): (r: Result<Mapping, ProfileError>)
    ensures r.Failure? <==> Repeated(src)
    ensures r.Success? ==> Built(src, r.value)
    ensures r.Failure? ==> Witnessed(src, r.error)
  {
    if |src| == 0 then Success([])
    else
      var init := src[..|src| - 1];
      RepeatedSnoc(src);
      match BuildMapping(init)
      case Failure(e) =>
        WitnessedSnoc(src, e);
        Failure(e)
      case Success(m) =>
        match src[|src| - 1]
        case Code =>
          BuiltCode(src, m);
          Success(m)
        case Decl(idx, tag) =>
          match Get(m, idx)
          case Some(prev) =>
            DuplicateFound(src, m);
            Failure(DuplicateIndex(idx, prev, tag))
          case None =>
            BuiltDecl(src, m);
            Success(Put(m, idx, tag))
  }

  /** A duplicate in a prefix is a duplicate in the whole. */
  lemma WitnessedSnoc(src: seq<SourceLine>, e: ProfileError)
    requires |src| > 0 && Witnessed(src[..|src| - 1], e)
    ensures Witnessed(src, e)
  {
    var init := src[..|src| - 1];
    var a, b :| 0 <= a < b < |init| && init[a] == Decl(e.index, e.firstTag) && init[b] == Decl(e.index, e.secondTag);
    assert src[a] == init[a] && src[b] == init[b];
  }

  /** A line that is not a declaration leaves the mapping as it is. */
  lemma BuiltCode(src: seq<SourceLine>, m: Mapping)
    requires |src| > 0 && src[|src| - 1].Code? && Built(src[..|src| - 1], m)
    ensures Built(src, m)
  {
    assert DeclIndices(src) == DeclIndices(src[..|src| - 1]) + [];
    LookupsSnoc(src, m, m);
  }

  /** A declaration of a new index appends its entry. */
  lemma BuiltDecl(src: seq<SourceLine>, m: Mapping)
    requires |src| > 0 && src[|src| - 1].Decl? && Built(src[..|src| - 1], m)
    requires Get(m, src[|src| - 1].index).None?
    ensures Built(src, Put(m, src[|src| - 1].index, src[|src| - 1].tag))
  {
    var init := src[..|src| - 1];
    var last := src[|src| - 1];
    var m' := Put(m, last.index, last.tag);
    PutDistinct(m, last.index, last.tag);
    assert Keys(m') == DeclIndices(src) by {
      assert m' == m + [(last.index, last.tag)];
      KeysSnoc(m, last.index, last.tag);
    }
    forall j | 0 <= j < |init| && src[j].Decl?
      ensures Get(m', src[j].index) == Get(m, src[j].index)
    {
      assert src[j] == init[j];
    }
    LookupsSnoc(src, m, m');
  }

  /**
   * The lookups of all declarations hold in `m'` when the earlier ones look
   * up what they did in `m` and the last one looks up its own tag.
   */
  lemma LookupsSnoc(src: seq<SourceLine>, m: Mapping, m': Mapping)
    requires |src| > 0 && Lookups(src[..|src| - 1], m)
    requires forall j :: 0 <= j < |src| - 1 && src[j].Decl? ==> Get(m', src[j].index) == Get(m, src[j].index)
    requires src[|src| - 1].Decl? ==> Get(m', src[|src| - 1].index) == Some(src[|src| - 1].tag)
    ensures Lookups(src, m')
  {
    forall j | 0 <= j < |src| - 1 && src[j].Decl?
      ensures Get(m', src[j].index) == Some(src[j].tag)
    {
      assert src[j] == src[..|src| - 1][j];
    }
  }

  /** A declaration of an index already mapped is the second of a duplicate pair. */
  lemma DuplicateFound(src: seq<SourceLine>, m: Mapping)
    requires |src| > 0 && src[|src| - 1].Decl? && Built(src[..|src| - 1], m)
    requires Get(m, src[|src| - 1].index).Some?
    ensures Witnessed(src, DuplicateIndex(src[|src| - 1].index, Get(m, src[|src| - 1].index).value, src[|src| - 1].tag))
  {
    var init := src[..|src| - 1];
    var last := src[|src| - 1];
    DeclaredEarlier(init, m, last.index);
    var a :| 0 <= a < |init| && init[a] == Decl(last.index, Get(m, last.index).value);
    assert src[a] == init[a];
  }

  /** An index is mapped exactly when it is declared. */
  lemma MappedIffDeclared(src: seq<SourceLine>, x: string)
    requires BuildMapping(src).Success?
    ensures Get(BuildMapping(src).value, x).Some? <==>
      exists j :: 0 <= j < |src| && src[j].Decl? && src[j].index == x
  {
    DeclIndicesMember(src, x);
  }

  /** Two identical declarations are still a duplicate. */
  lemma SameTagTwiceFails()
    ensures BuildMapping([Decl("3", "start_ns"), Code, Decl("3", "start_ns")]) ==
      Failure(DuplicateIndex("3", "start_ns", "start_ns"))
  {
    var src := [Decl("3", "start_ns"), Code, Decl("3", "start_ns")];
    assert src[..0] == [];
    var a0 := Put([], "3", "start_ns");
    assert Get(a0, "3") == Some("start_ns");
  }
}
