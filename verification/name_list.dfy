/** The include and exclude filters of `GLShaderUniformBlocks::setProgram`
    are character buffers holding names one after another, each ended by a
    NUL, the list ended by an empty name. Names are compared with
    `strncmp(..., 128)` and skipped with `strnlen(..., 128) + 1`. The end of
    the buffer is read as a NUL. */
module NameList {
  import opened Common

  const NUL: char := '\0'

  /** `MaxUniformBlockName`: the length limit of both string calls. */
  const MaxName: nat := 128

  /** The C string starting at the front of `s`: everything before its
      first NUL. */
  function CString(s: seq<char>): (r: string)
    ensures r <= s && NUL !in r
    ensures |r| < |s| ==> s[|r|] == NUL
  {
    if |s| == 0 || s[0] == NUL then [] else [s[0]] + CString(s[1..])
  }

  /** `strnlen(s, 128)`. */
  function StrnLen(s: seq<char>): (n: nat)
    ensures n <= MaxName
  {
    Min(|CString(s)|, MaxName)
  }

  /** `strncmp(a, b, 128) == 0`: the strings agree up to their terminators,
      or on their first 128 characters. */
  predicate StrnEqual(a: string, b: string)
  {
    var ca, cb := CString(a), CString(b);
    ca[..Min(|ca|, MaxName)] == cb[..Min(|cb|, MaxName)]
  }

  /** The walk over one list: true when some listed name matches. */
  function ListContains(list: seq<char>, name: string): (r: bool)
    ensures |list| == 0 || list[0] == NUL ==> !r
    ensures |list| > 0 && list[0] != NUL && StrnEqual(list, name) ==> r
    decreases |list|
  {
    if |list| == 0 || list[0] == NUL then false
    else if StrnEqual(list, name) then true
    else
      var skip := StrnLen(list) + 1;
      if skip >= |list| then false else ListContains(list[skip..], name)
  }

  /** The filters: with an include list only names it contains qualify, and
      a name the exclude list contains never does. `None` is a null pointer. */
  predicate ShouldImport(includeOnly: Option<seq<char>>, exclude: Option<seq<char>>, name: string)
  {
    && (includeOnly.None? || ListContains(includeOnly.value, name))
    && !(exclude.Some? && ListContains(exclude.value, name))
  }

  /** A name that can appear in a list: non-empty, at most 128 characters
      and free of NULs. */
  predicate ListableName(n: string)
  {
    0 < |n| <= MaxName && NUL !in n
  }

  /** The buffer a list of names is written as. */
  function Encode(names: seq<string>): seq<char>
  {
    if |names| == 0 then [NUL] else names[0] + [NUL] + Encode(names[1..])
  }

  lemma CStringOfTerminated(n: string, rest: seq<char>)
    requires NUL !in n
    ensures CString(n + [NUL] + rest) == n
    decreases |n|
  {
    if |n| > 0 {
      assert (n + [NUL] + rest)[1..] == n[1..] + [NUL] + rest;
      CStringOfTerminated(n[1..], rest);
    }
  }

  lemma CStringOfName(n: string)
    requires NUL !in n
    ensures CString(n) == n
    decreases |n|
  {
    if |n| > 0 {
      CStringOfName(n[1..]);
    }
  }

  /** The walk finds exactly the listed names. */
  lemma {:induction false} EncodeContains(names: seq<string>, name: string)
    requires forall k :: 0 <= k < |names| ==> ListableName(names[k])
    requires ListableName(name)
    ensures ListContains(Encode(names), name) <==> name in names
  {
    CStringOfName(name);
    if |names| > 0 {
      var n := names[0];
      var rest := Encode(names[1..]);
      var list := Encode(names);
      assert list == n + [NUL] + rest;
      CStringOfTerminated(n, rest);
      assert list[0] == n[0];
      assert StrnEqual(list, name) <==> n == name;
      assert list[StrnLen(list) + 1..] == rest;
      EncodeContains(names[1..], name);
      assert name in names <==> name == n || name in names[1..];
    }
  }

  /** With a non-null but empty include list nothing is imported; a name on
      the exclude list is never imported, even when it is also included. */
  lemma FilterRules(includeOnly: Option<seq<char>>, exclude: Option<seq<char>>, name: string)
    ensures includeOnly == Some(Encode([])) ==> !ShouldImport(includeOnly, exclude, name)
    ensures exclude.Some? && ListContains(exclude.value, name) ==> !ShouldImport(includeOnly, exclude, name)
    ensures includeOnly.None? && exclude.None? ==> ShouldImport(includeOnly, exclude, name)
  {
  }

  /** For listable names the filters mean what the lists say. */
  lemma ShouldImportOfLists(includeOnly: Option<seq<string>>, exclude: Option<seq<string>>, name: string)
    requires includeOnly.Some? ==> forall k :: 0 <= k < |includeOnly.value| ==> ListableName(includeOnly.value[k])
    requires exclude.Some? ==> forall k :: 0 <= k < |exclude.value| ==> ListableName(exclude.value[k])
    requires ListableName(name)
    ensures ShouldImport(if includeOnly.Some? then Some(Encode(includeOnly.value)) else None,
                         if exclude.Some? then Some(Encode(exclude.value)) else None, name)
            <==> (includeOnly.None? || name in includeOnly.value) && !(exclude.Some? && name in exclude.value)
  {
    if includeOnly.Some? {
      EncodeContains(includeOnly.value, name);
    }
    if exclude.Some? {
      EncodeContains(exclude.value, name);
    }
  }
}
