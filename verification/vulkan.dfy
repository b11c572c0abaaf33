/** The Vulkan renderer's bootstrap: loading the Vulkan library and four
    entry points from it, negotiating the validation layers and instance
    extensions to enable, and creating the instance. The dynamic loader,
    the enumeration calls and vkCreateInstance are oracles: each appears as
    the value it returns. */
module Vulkan {
  import opened Base
  import opened Resources
  import ResultCodes

  /** A library handle or a symbol address returned by the loader. */
  type Handle = nat

  /** The entry points loaded from the library, in the order they are
      looked up. */
  const SymbolNames: seq<string> := [
    "vkCreateInstance", "vkDestroyInstance",
    "vkEnumerateInstanceLayerProperties", "vkEnumerateInstanceExtensionProperties"]

  /** The renderer's loader state: the library handle and one address per
      entry of `SymbolNames`, each possibly NULL. */
  datatype Loader = Loader(library: Option<Handle>, symbols: seq<Option<Handle>>)

  predicate WellFormed(vk: Loader)
  {
    |vk.symbols| == |SymbolNames|
  }

  /** The number of leading symbols that resolved: the lookup stops at the
      first NULL. */
  function FirstMissing(resolved: seq<Option<Handle>>): (k: nat)
    ensures k <= |resolved|
    ensures forall i :: 0 <= i < k ==> resolved[i].Some?
    ensures k < |resolved| ==> resolved[k].None?
  {
    if resolved == [] || resolved[0].None? then 0 else 1 + FirstMissing(resolved[1..])
  }

  /** vulkan_unload_library: close the handle when there is one; the
      handle is NULL afterwards either way. The trace holds the close. */
  function UnloadLibrary(vk: Loader): (r: (Loader, seq<Action<Handle>>))
    ensures r.0.library.None? && r.0.symbols == vk.symbols
    ensures vk.library.None? ==> r.1 == []
    ensures vk.library.Some? ==> r.1 == [Release(vk.library.value)]
  {
    match vk.library
    case None => (vk, [])
    case Some(h) => (vk.(library := None), [Release(h)])
  }

  /** vulkan_load_library. `openResult` is what module_open returns and
      `resolved[i]` what module_sym returns for `SymbolNames[i]`. Symbols
      are stored as they are looked up, the lookup stopping at the first
      NULL; on such a miss the library is unloaded again. The addresses
      stored before the miss are not cleared. */
  function LoadLibrary(vk: Loader, openResult: Option<Handle>, resolved: seq<Option<Handle>>): (r: (bool, Loader, seq<Action<Handle>>))
    requires WellFormed(vk) && |resolved| == |SymbolNames|
    ensures WellFormed(r.1)
    ensures r.0 <==> openResult.Some? && forall i :: 0 <= i < |resolved| ==> resolved[i].Some?
    ensures r.0 ==> r.1 == Loader(openResult, resolved) && Outstanding(r.2) == Some([openResult.value])
    ensures !r.0 ==> r.1.library.None? && Balanced(r.2)
    ensures openResult.None? ==> r.1.symbols == vk.symbols
    ensures openResult.Some? && !r.0 ==>
      var k := FirstMissing(resolved);
      && r.1.symbols[..k + 1] == resolved[..k + 1]
      && r.1.symbols[k + 1..] == vk.symbols[k + 1..]
  {
    match openResult
    case None => (false, vk.(library := None), [])
    case Some(h) =>
      var k := FirstMissing(resolved);
      if k == |resolved| then
        ReplayAcquires([], [h]);
        assert Acquires([h]) == [Acquire(h)] && [] + [h] == [h];
        (true, Loader(openResult, resolved), [Acquire(h)])
      else
        var stored := Loader(openResult, resolved[..k + 1] + vk.symbols[k + 1..]);
        var unloaded := UnloadLibrary(stored);
        RollbackIsBalanced([h]);
        assert Acquires([h]) + ReleasesInReverse([h]) == [Acquire(h)] + unloaded.1;
        (false, unloaded.0, [Acquire(h)] + unloaded.1)
  }

  /** Unloading twice is unloading once: the second call closes nothing. */
  lemma UnloadIsIdempotent(vk: Loader)
    ensures UnloadLibrary(UnloadLibrary(vk).0).0 == UnloadLibrary(vk).0
    ensures UnloadLibrary(UnloadLibrary(vk).0).1 == []
  {
  }

  /** A successful load followed by an unload closes the library it opened. */
  lemma LoadThenUnloadIsBalanced(vk: Loader, openResult: Option<Handle>, resolved: seq<Option<Handle>>)
    requires WellFormed(vk) && |resolved| == |SymbolNames|
    requires LoadLibrary(vk, openResult, resolved).0
    ensures var l := LoadLibrary(vk, openResult, resolved);
      Balanced(l.2 + UnloadLibrary(l.1).1)
  {
    var h := openResult.value;
    RollbackIsBalanced([h]);
    assert LoadLibrary(vk, openResult, resolved).2 + UnloadLibrary(Loader(openResult, resolved)).1
      == Acquires([h]) + ReleasesInReverse([h]);
  }

  /** vulkan_load_library as its header describes it: with a library
      already open the call fails and leaves the loader as it was;
      otherwise it loads as LoadLibrary does. */
  function LoadLibraryChecked(vk: Loader, openResult: Option<Handle>, resolved: seq<Option<Handle>>): (r: (bool, Loader, seq<Action<Handle>>))
    requires WellFormed(vk) && |resolved| == |SymbolNames|
    ensures WellFormed(r.1)
    ensures r.0 <==> vk.library.None? && openResult.Some? && forall i :: 0 <= i < |resolved| ==> resolved[i].Some?
    ensures r.0 ==> r.1 == Loader(openResult, resolved) && Outstanding(r.2) == Some([openResult.value])
    ensures !r.0 ==> r.1.library == vk.library && Balanced(r.2)
  {
    if vk.library.Some? then (false, vk, []) else LoadLibrary(vk, openResult, resolved)
  }

  /** Whatever the loader held before, a checked load followed by an
      unload leaves no library handle open: `before` is the history that
      opened the current handle, if there is one. */
  lemma LoadCheckedThenUnloadLeaksNothing(vk: Loader, openResult: Option<Handle>, resolved: seq<Option<Handle>>,
                                          before: seq<Action<Handle>>)
    requires WellFormed(vk) && |resolved| == |SymbolNames|
    requires Leaked(before) == if vk.library.Some? then multiset{vk.library.value} else multiset{}
    ensures var c := LoadLibraryChecked(vk, openResult, resolved);
      Leaked(before + c.2 + UnloadLibrary(c.1).1) == multiset{}
  {
    var c := LoadLibraryChecked(vk, openResult, resolved);
    var closing := UnloadLibrary(c.1).1;
    if vk.library.Some? {
      assert c.2 == [] && closing == [Release(vk.library.value)];
      ReleaseOpen(before, c.2, closing, vk.library.value);
    } else {
      LoadThenUnloadOfClosedIsBalanced(vk, openResult, resolved);
      BalancedReleasesAll(c.2 + closing);
      LeakFreeAppend(before, c.2, closing);
    }
  }

  /** A refused load followed by the unload that closes the open handle. */
  lemma ReleaseOpen(before: seq<Action<Handle>>, load: seq<Action<Handle>>, closing: seq<Action<Handle>>, h: Handle)
    requires Leaked(before) == multiset{h} && load == [] && closing == [Release(h)]
    ensures Leaked(before + load + closing) == multiset{}
  {
    assert before + load + closing == before + [Release(h)];
    ReleaseTheLeak(before, h);
  }

  /** With no library open, a load followed by an unload is balanced
      whether or not the load succeeds. */
  lemma LoadThenUnloadOfClosedIsBalanced(vk: Loader, openResult: Option<Handle>, resolved: seq<Option<Handle>>)
    requires WellFormed(vk) && vk.library.None? && |resolved| == |SymbolNames|
    ensures var l := LoadLibrary(vk, openResult, resolved);
      Balanced(l.2 + UnloadLibrary(l.1).1)
  {
    var l := LoadLibrary(vk, openResult, resolved);
    if l.0 {
      LoadThenUnloadIsBalanced(vk, openResult, resolved);
    } else {
      assert UnloadLibrary(l.1).1 == [] && l.2 + [] == l.2;
    }
  }

  /** Two leak-free traces one after the other leak nothing. */
  lemma LeakFreeAppend(a: seq<Action<Handle>>, b: seq<Action<Handle>>, c: seq<Action<Handle>>)
    requires Leaked(a) == multiset{} && Leaked(b + c) == multiset{}
    ensures Leaked(a + b + c) == multiset{}
  {
    assert a + [] == a;
    LeakFreeNested(a, b, c, []);
    assert a + b + c + [] == a + b + c;
  }

  /** The counterexample for loading over an open library: with handle 1
      open, the call as written succeeds with handle 2, and after unloading
      handle 1 is still open with nothing left that refers to it. */
  lemma LoadOverOpenLibraryLeaks()
    ensures var vk := Loader(Some(1), [None, None, None, None]);
      var all: seq<Option<Handle>> := [Some(10), Some(11), Some(12), Some(13)];
      var l := LoadLibrary(vk, Some(2), all);
      l.0 && l.1.library == Some(2)
    ensures var vk := Loader(Some(1), [None, None, None, None]);
      var all: seq<Option<Handle>> := [Some(10), Some(11), Some(12), Some(13)];
      var l := LoadLibrary(vk, Some(2), all);
      Leaked([Acquire(1)] + l.2 + UnloadLibrary(l.1).1) == multiset{1}
  {
    var vk := Loader(Some(1), [None, None, None, None]);
    var all: seq<Option<Handle>> := [Some(10), Some(11), Some(12), Some(13)];
    assert FirstMissing(all) == 4 by {
      assert all[1..] == [Some(11), Some(12), Some(13)];
      assert all[1..][1..] == [Some(12), Some(13)];
      assert all[1..][1..][1..] == [Some(13)];
    }
    var l := LoadLibrary(vk, Some(2), all);
    assert l.2 == [Acquire(2)];
    var t: seq<Action<Handle>> := [Acquire(1)] + l.2 + UnloadLibrary(l.1).1;
    assert t == [Acquire(1)] + [Acquire(2)] + [Release(2)];
    CountsSingle<Handle>(Acquire(1));
    CountsSnoc<Handle>([Acquire(1)], Acquire(2));
    CountsSnoc<Handle>([Acquire(1)] + [Acquire(2)], Release(2));
    assert Acquired(t) == multiset{1, 2};
    assert Released(t) == multiset{2};
    assert multiset{1, 2} - multiset{2} == multiset{1};
  }

  /** Negotiation: the requested names, in requested order, that match an
      available name exactly. */
  function Negotiate(requested: seq<CString>, available: seq<CString>): (enabled: seq<CString>)
    ensures |enabled| <= |requested|
  {
    if requested == [] then []
    else
      var last := requested[|requested| - 1];
      Negotiate(requested[..|requested| - 1], available) + (if last in available then [last] else [])
  }

  /** A name is enabled exactly when it is both requested and available. */
  lemma {:induction false} NegotiateMembers(requested: seq<CString>, available: seq<CString>)
    ensures forall x :: x in Negotiate(requested, available) <==> x in requested && x in available
  {
    if requested != [] {
      var init := requested[..|requested| - 1];
      NegotiateMembers(init, available);
      assert requested == init + [requested[|requested| - 1]];
    }
  }

  /** A duplicate-free request enables no name twice. */
  lemma {:induction false} NegotiateDistinct(requested: seq<CString>, available: seq<CString>)
    requires NoDuplicates(requested)
    ensures NoDuplicates(Negotiate(requested, available))
  {
    if requested != [] {
      var init := requested[..|requested| - 1];
      var last := requested[|requested| - 1];
      assert requested == init + [last];
      assert NoDuplicates(init);
      NegotiateDistinct(init, available);
      assert last !in init;
      NegotiateMembers(init, available);
    }
  }

  /** Negotiation is the front-to-back filter, so enabled names keep the
      order of the request. */
  lemma {:induction false} NegotiateIsFilter(requested: seq<CString>, available: seq<CString>)
    ensures Negotiate(requested, available) == Filter(requested, available)
  {
    if requested != [] {
      var init := requested[..|requested| - 1];
      var last := requested[|requested| - 1];
      NegotiateIsFilter(init, available);
      assert requested == init + [last];
      FilterAppend(init, last, available);
    }
  }

  /** The reference filter, written front to back. */
  function Filter(requested: seq<CString>, available: seq<CString>): seq<CString>
  {
    if requested == [] then []
    else (if requested[0] in available then [requested[0]] else []) + Filter(requested[1..], available)
  }

  lemma {:induction false} FilterAppend(init: seq<CString>, last: CString, available: seq<CString>)
    ensures Filter(init + [last], available) ==
            Filter(init, available) + (if last in available then [last] else [])
    decreases |init|
  {
    if init == [] {
      assert init + [last] == [last];
      assert [last][1..] == [];
    } else {
      assert (init + [last])[0] == init[0];
      assert (init + [last])[1..] == init[1..] + [last];
      FilterAppend(init[1..], last, available);
    }
  }

  /** With a duplicate-free request every enabled name fills a distinct
      slot of a buffer sized for the available names. */
  lemma NegotiateFitsBuffer(requested: seq<CString>, available: seq<CString>)
    requires NoDuplicates(requested)
    ensures |Negotiate(requested, available)| <= |available|
  {
    var enabled := Negotiate(requested, available);
    NegotiateMembers(requested, available);
    NegotiateDistinct(requested, available);
    DistinctCard(enabled);
    SetCardBound(available);
    var es := set x | x in enabled;
    var as_ := set x | x in available;
    assert es <= as_;
    SubsetCard(es, as_);
  }

  lemma {:induction false} DistinctCard<T>(s: seq<T>)
    requires NoDuplicates(s)
    ensures |set x | x in s| == |s|
  {
    if s != [] {
      var init := s[..|s| - 1];
      var last := s[|s| - 1];
      assert s == init + [last];
      assert NoDuplicates(init);
      DistinctCard(init);
      assert last !in init;
      assert (set x | x in s) == (set x | x in init) + {last};
    }
  }

  lemma {:induction false} SetCardBound<T>(s: seq<T>)
    ensures |set x | x in s| <= |s|
  {
    if s != [] {
      var init := s[..|s| - 1];
      assert s == init + [s[|s| - 1]];
      SetCardBound(init);
      assert (set x | x in s) == (set x | x in init) + {s[|s| - 1]};
    }
  }

  lemma {:induction false} SubsetCard<T>(a: set<T>, b: set<T>)
    requires a <= b
    ensures |a| <= |b|
    decreases |a|
  {
    if a != {} {
      var x :| x in a;
      SubsetCard(a - {x}, b - {x});
    }
  }

  /** The matching loops of the two fill-in functions: for each requested
      name, scan the available names and stop at the first equal one. */
  method MatchNames(requested: seq<CString>, available: seq<CString>) returns (enabled: seq<CString>)
    ensures enabled == Negotiate(requested, available)
  {
    enabled := [];
    var i := 0;
    while i != |requested|
      invariant i <= |requested|
      invariant enabled == Negotiate(requested[..i], available)
      decreases |requested| - i
    {
      var found := false;
      var j := 0;
      while j != |available|
        invariant j <= |available|
        invariant found <==> requested[i] in available[..j]
        decreases |available| - j
      {
        if requested[i] == available[j] {
          found := true;
          assert available[..j + 1][j] == requested[i];
          break;
        }
        assert available[..j + 1] == available[..j] + [available[j]];
        j := j + 1;
      }
      assert found <==> requested[i] in available by {
        if j == |available| { assert available[..j] == available; }
      }
      assert requested[..i + 1][..i] == requested[..i];
      if found {
        enabled := enabled + [requested[i]];
      }
      i := i + 1;
    }
    assert requested[..i] == requested;
  }

  /** Which of the two name lists of VkInstanceCreateInfo. */
  datatype Kind = Layers | Extensions

  /** The buffers the fill-in functions allocate: the copy of the
      enumerated properties, and the list of enabled names handed to
      vkCreateInstance. */
  datatype Buffer = Properties(kind: Kind) | EnabledNames(kind: Kind)

  /** One enabled-name list of VkInstanceCreateInfo: a count and a
      pointer; a non-NULL pointer is modelled by the names it points to. */
  datatype NameList = NameList(count: nat, names: Option<seq<CString>>)

  const Unset := NameList(0, None)

  /** The pairing clean-up relies on: a NULL pointer exactly when the count
      is zero, and otherwise `count` names. */
  predicate Paired(l: NameList)
  {
    (l.count == 0 <==> l.names.None?) && (l.names.Some? ==> |l.names.value| == l.count)
  }

  /** The outcome of a fill-in: its return value, the list afterwards, and
      the buffers it allocated and freed. */
  datatype Filled = Filled(ok: bool, list: NameList, trace: seq<Action<Buffer>>)

  /** vulkan_fill_in_validation_layer_info and
      vulkan_fill_in_extension_info, as written. Both require an unset list.
      `available` is what the enumeration reports; `propertiesOk` and
      `namesOk` are the two allocations. When names are available the
      pointer is set to the new buffer even if no requested name matched,
      leaving a non-NULL pointer with a count of zero. */
  function FillInAsWritten(kind: Kind, list: NameList, requested: seq<CString>, available: seq<CString>,
                           propertiesOk: bool, namesOk: bool): (r: Filled)
    requires list == Unset && NoDuplicates(requested)
    ensures r.ok <==> available == [] || (propertiesOk && namesOk)
    ensures !r.ok ==> r.list == list && Leaked(r.trace) == multiset{}
    ensures available == [] ==> r.list == list && r.trace == []
    ensures r.ok && available != [] ==>
      && r.list == NameList(|Negotiate(requested, available)|, Some(Negotiate(requested, available)))
      && Leaked(r.trace) == multiset{EnabledNames(kind)}
  {
    if available == [] then Filled(true, list, [])
    else if !propertiesOk then Filled(false, list, [])
    else if !namesOk then
      FillInTraces(kind);
      Filled(false, list, [Acquire(Properties(kind)), Release(Properties(kind))])
    else
      var enabled := Negotiate(requested, available);
      NegotiateFitsBuffer(requested, available);
      FillInTraces(kind);
      Filled(true, NameList(|enabled|, Some(enabled)),
             [Acquire(Properties(kind)), Acquire(EnabledNames(kind)), Release(Properties(kind))])
  }

  /** What the fill-in traces leave allocated. */
  lemma FillInTraces(kind: Kind)
    ensures Leaked([Acquire(Properties(kind)), Release(Properties(kind))]) == multiset{}
    ensures Leaked([Acquire(Properties(kind)), Acquire(EnabledNames(kind)), Release(Properties(kind))])
            == multiset{EnabledNames(kind)}
    ensures Leaked([Acquire(Properties(kind)), Acquire(EnabledNames(kind)), Release(Properties(kind)),
                    Release(EnabledNames(kind))]) == multiset{}
  {
    var p, n := Properties(kind), EnabledNames(kind);
    CountsSingle(Acquire(p));
    CountsSnoc([Acquire(p)], Release(p));
    assert [Acquire(p)] + [Release(p)] == [Acquire(p), Release(p)];
    CountsSnoc([Acquire(p)], Acquire(n));
    assert [Acquire(p)] + [Acquire(n)] == [Acquire(p), Acquire(n)];
    CountsSnoc([Acquire(p), Acquire(n)], Release(p));
    assert [Acquire(p), Acquire(n)] + [Release(p)] == [Acquire(p), Acquire(n), Release(p)];
    CountsSnoc([Acquire(p), Acquire(n), Release(p)], Release(n));
    assert [Acquire(p), Acquire(n), Release(p)] + [Release(n)] == [Acquire(p), Acquire(n), Release(p), Release(n)];
  }

  /** The fill-in with the pairing kept: when nothing matched, the unused
      name buffer is freed and the pointer stays NULL. */
  function FillIn(kind: Kind, list: NameList, requested: seq<CString>, available: seq<CString>,
                  propertiesOk: bool, namesOk: bool): (r: Filled)
    requires list == Unset && NoDuplicates(requested)
    ensures Paired(r.list)
    ensures r.ok <==> available == [] || (propertiesOk && namesOk)
    ensures !r.ok ==> r.list == list && Leaked(r.trace) == multiset{}
    ensures r.list.names.Some? ==> r.list.names.value == Negotiate(requested, available)
    ensures r.ok && available != [] ==> r.list.count == |Negotiate(requested, available)|
    ensures Leaked(r.trace) == if r.list.names.Some? then multiset{EnabledNames(kind)} else multiset{}
  {
    var w := FillInAsWritten(kind, list, requested, available, propertiesOk, namesOk);
    if w.ok && w.list.count == 0 && w.list.names.Some? then
      Filled(true, Unset, w.trace + [Release(EnabledNames(kind))])
    else w
  }

  /** vulkan_clean_up_validation_layer_info and
      vulkan_clean_up_extension_info: a zero count asserts a NULL pointer
      (`None` is that assertion failing); otherwise the buffer is freed and
      count and pointer are reset together. */
  function CleanUp(kind: Kind, list: NameList): (r: Option<(NameList, seq<Action<Buffer>>)>)
    ensures r.None? <==> list.count == 0 && list.names.Some?
    ensures r.Some? ==> r.value.0 == Unset
    ensures r.Some? && list.count == 0 ==> r.value.1 == []
    ensures r.Some? && list.count != 0 ==> r.value.1 == [Release(EnabledNames(kind))]
  {
    if list.count == 0 then
      if list.names.None? then Some((list, [])) else None
    else Some((Unset, [Release(EnabledNames(kind))]))
  }

  /** Cleaning up a paired list never trips the assertion. */
  lemma PairedCleansUp(kind: Kind, list: NameList)
    requires Paired(list)
    ensures CleanUp(kind, list).Some?
  {
  }

  /** The counterexample: layers are available but none is requested by
      name, so the fill-in as written leaves a non-NULL pointer with a zero
      count and the clean-up's assertion fails; the corrected fill-in
      cleans up. */
  lemma FillInUnpairedWhenNothingMatches()
    ensures var w := FillInAsWritten(Layers, Unset, ValidationLayerNames, ["VK_LAYER_OTHER"], true, true);
      w.ok && w.list == NameList(0, Some([])) && !Paired(w.list) && CleanUp(Layers, w.list).None?
    ensures var f := FillIn(Layers, Unset, ValidationLayerNames, ["VK_LAYER_OTHER"], true, true);
      f.ok && f.list == Unset && CleanUp(Layers, f.list).Some?
  {
    assert Negotiate(ValidationLayerNames, ["VK_LAYER_OTHER"]) == [];
  }

  /** The names vulkan_create_instance requests. */
  const ValidationLayerNames: seq<CString> := ["VK_LAYER_LUNARG_standard_validation"]
  const ExtensionNames: seq<CString> := ["VK_KHR_surface", "VK_KHR_xlib_surface", "VK_EXT_debug_report"]

  lemma RequestedNamesAreDistinct()
    ensures NoDuplicates(ValidationLayerNames) && NoDuplicates(ExtensionNames)
  {
  }

  /** What the drivers report and the allocator and vkCreateInstance
      return during one vulkan_create_instance call. */
  datatype Environment = Environment(
    availableLayers: seq<CString>, layerPropertiesOk: bool, layerNamesOk: bool,
    availableExtensions: seq<CString>, extensionPropertiesOk: bool, extensionNamesOk: bool,
    createResult: int)

  /** The outcome of vulkan_create_instance: its return value, whether it
      called vkCreateInstance, and the buffers it allocated and freed. */
  datatype Created = Created(ok: bool, createCalled: bool, trace: seq<Action<Buffer>>)

  /** Both fill-ins succeed, so vkCreateInstance is reached: each list
      either has nothing to match against or is enumerated and allocated
      without failure. */
  predicate CreateReached(env: Environment)
  {
    && (env.availableLayers == [] || (env.layerPropertiesOk && env.layerNamesOk))
    && ExtensionsReached(env)
  }

  /** The extension fill-in succeeds. */
  predicate ExtensionsReached(env: Environment)
  {
    env.availableExtensions == [] || (env.extensionPropertiesOk && env.extensionNamesOk)
  }

  /** A failure code vulkan_result_to_string has no entry for (neither in
      -12..5 nor one of the extension codes): logging the failure trips its
      assertion. */
  predicate FailureUnnamed(createResult: int)
  {
    && createResult != ResultCodes.VkSuccess
    && !(-12 <= createResult <= 5 || createResult in ResultCodes.KhrCodes)
  }

  /** The unnamed failure codes are exactly the codes other than VK_SUCCESS
      for which vulkan_result_to_string fails its assertion. */
  lemma FailureUnnamedIsLookupFailure(createResult: int)
    ensures FailureUnnamed(createResult) <==>
      createResult != ResultCodes.VkSuccess && ResultCodes.ResultToString(createResult).None?
  {
  }

  /** vulkan_create_instance as written: a failed extension fill-in returns
      without cleaning up the layer list, and the clean-ups may trip their
      assertion (`None`), as does logging a failure code that has no name. */
  function CreateInstanceAsWritten(env: Environment): (r: Option<Created>)
    ensures r.Some? ==> (r.value.createCalled <==> CreateReached(env))
    ensures r.Some? ==> (r.value.ok <==> r.value.createCalled && env.createResult == ResultCodes.VkSuccess)
    ensures r.Some? && r.value.createCalled ==> !FailureUnnamed(env.createResult)
  {
    RequestedNamesAreDistinct();
    var l := FillInAsWritten(Layers, Unset, ValidationLayerNames, env.availableLayers,
                             env.layerPropertiesOk, env.layerNamesOk);
    if !l.ok then Some(Created(false, false, l.trace))
    else
      var e := FillInAsWritten(Extensions, Unset, ExtensionNames, env.availableExtensions,
                               env.extensionPropertiesOk, env.extensionNamesOk);
      if !e.ok then Some(Created(false, false, l.trace + e.trace))
      else match (CleanUp(Extensions, e.list), CleanUp(Layers, l.list))
        case (Some(ce), Some(cl)) =>
          if FailureUnnamed(env.createResult) then None
          else Some(Created(env.createResult == ResultCodes.VkSuccess, true, l.trace + e.trace + ce.1 + cl.1))
        case _ => None
  }

  /** vulkan_create_instance with the pairing kept by the fill-ins and the
      layer list cleaned up when the extension fill-in fails. Logging a
      failure code without a name still trips the assertion of
      vulkan_result_to_string (`None`), after both lists are cleaned up. */
  function CreateInstance(env: Environment): (r: Option<Created>)
    ensures r.None? <==> CreateReached(env) && FailureUnnamed(env.createResult)
    ensures r.Some? ==> (r.value.createCalled <==> CreateReached(env))
    ensures r.Some? ==> (r.value.ok <==> r.value.createCalled && env.createResult == ResultCodes.VkSuccess)
    ensures r.Some? ==> Leaked(r.value.trace) == multiset{}
  {
    RequestedNamesAreDistinct();
    var l := FillIn(Layers, Unset, ValidationLayerNames, env.availableLayers,
                    env.layerPropertiesOk, env.layerNamesOk);
    if !l.ok then Some(Created(false, false, l.trace))
    else ExtensionsThenCreate(l, env)
  }

  /** The corrected vulkan_create_instance after a successful layer
      fill-in: fill in the extensions, then finish as AfterFillIns does. */
  function ExtensionsThenCreate(l: Filled, env: Environment): (r: Option<Created>)
    requires l.ok && Paired(l.list)
    requires Leaked(l.trace) == if l.list.names.Some? then multiset{EnabledNames(Layers)} else multiset{}
    ensures r.None? <==> ExtensionsReached(env) && FailureUnnamed(env.createResult)
    ensures r.Some? ==> (r.value.createCalled <==> ExtensionsReached(env))
    ensures r.Some? ==> (r.value.ok <==> r.value.createCalled && env.createResult == ResultCodes.VkSuccess)
    ensures r.Some? ==> Leaked(r.value.trace) == multiset{}
  {
    RequestedNamesAreDistinct();
    var e := FillIn(Extensions, Unset, ExtensionNames, env.availableExtensions,
                    env.extensionPropertiesOk, env.extensionNamesOk);
    AfterFillIns(l, e, env.createResult)
  }

  /** The rest of the corrected vulkan_create_instance once the layer
      fill-in has succeeded: call vkCreateInstance only when the extension
      fill-in succeeded too, and clean up both lists on every path. */
  function AfterFillIns(l: Filled, e: Filled, createResult: int): (r: Option<Created>)
    requires l.ok && Paired(l.list) && Paired(e.list) && (!e.ok ==> e.list == Unset)
    requires Leaked(l.trace) == if l.list.names.Some? then multiset{EnabledNames(Layers)} else multiset{}
    requires Leaked(e.trace) == if e.list.names.Some? then multiset{EnabledNames(Extensions)} else multiset{}
    ensures r.None? <==> e.ok && FailureUnnamed(createResult)
    ensures r.Some? ==> (r.value.createCalled <==> e.ok)
    ensures r.Some? ==> (r.value.ok <==> e.ok && createResult == ResultCodes.VkSuccess)
    ensures r.Some? ==> Leaked(r.value.trace) == multiset{}
  {
    if !e.ok then Some(Created(false, false, LayersCleanedUp(l, e)))
    else if FailureUnnamed(createResult) then None
    else Some(Created(createResult == ResultCodes.VkSuccess, true, BothCleanedUp(l, e)))
  }

  /** The trace of a run whose extension fill-in failed: the fill-ins,
      then the layer clean-up the corrected version adds. Nothing is left
      allocated. */
  function LayersCleanedUp(l: Filled, e: Filled): (trace: seq<Action<Buffer>>)
    requires Paired(l.list) && e.list == Unset
    requires Leaked(l.trace) == if l.list.names.Some? then multiset{EnabledNames(Layers)} else multiset{}
    requires Leaked(e.trace) == multiset{}
    ensures Leaked(trace) == multiset{}
  {
    var cl := CleanedUp(Layers, l);
    assert e.trace + [] == e.trace;
    LeakFreeNested(l.trace, e.trace, [], cl);
    l.trace + e.trace + [] + cl
  }

  /** The trace of a run in which both fill-ins succeeded: the fill-ins,
      then the extension and the layer clean-up. Nothing is left
      allocated. */
  function BothCleanedUp(l: Filled, e: Filled): (trace: seq<Action<Buffer>>)
    requires Paired(l.list) && Paired(e.list)
    requires Leaked(l.trace) == if l.list.names.Some? then multiset{EnabledNames(Layers)} else multiset{}
    requires Leaked(e.trace) == if e.list.names.Some? then multiset{EnabledNames(Extensions)} else multiset{}
    ensures Leaked(trace) == multiset{}
  {
    var cl := CleanedUp(Layers, l);
    var ce := CleanedUp(Extensions, e);
    LeakFreeNested(l.trace, e.trace, ce, cl);
    l.trace + e.trace + ce + cl
  }

  /** The frees of cleaning up after a corrected fill-in: the clean-up
      never trips its assertion and frees what the fill-in left
      allocated. */
  function CleanedUp(kind: Kind, f: Filled): (frees: seq<Action<Buffer>>)
    requires Paired(f.list)
    requires Leaked(f.trace) == if f.list.names.Some? then multiset{EnabledNames(kind)} else multiset{}
    ensures CleanUp(kind, f.list) == Some((Unset, frees))
    ensures Leaked(f.trace + frees) == multiset{}
  {
    var frees := CleanUp(kind, f.list).value.1;
    if f.list.names.Some? then
      ReleaseTheLeak(f.trace, EnabledNames(kind));
      frees
    else
      assert f.trace + frees == f.trace;
      frees
  }

  /** Counting the leaks of a create-instance trace piece by piece. */
  lemma LeakedAppend(a: seq<Action<Buffer>>, b: seq<Action<Buffer>>, c: seq<Action<Buffer>>, d: seq<Action<Buffer>>)
    ensures Acquired(a + b + c + d) == Acquired(a) + Acquired(b) + Acquired(c) + Acquired(d)
    ensures Released(a + b + c + d) == Released(a) + Released(b) + Released(c) + Released(d)
  {
    CountsAppend(a, b);
    CountsAppend(a + b, c);
    CountsAppend(a + b + c, d);
  }

  /** The counterexample for the leak: layers match, then the extension
      fill-in fails to allocate; as written the layer name list is never
      freed, while the corrected version frees it. */
  lemma CreateInstanceLeaksLayerList()
    ensures
      var env := Environment(ValidationLayerNames, true, true, ExtensionNames, false, true, 0);
      && CreateInstanceAsWritten(env).Some?
      && Leaked(CreateInstanceAsWritten(env).value.trace) == multiset{EnabledNames(Layers)}
      && CreateInstance(env).Some?
      && Leaked(CreateInstance(env).value.trace) == multiset{}
  {
    var env := Environment(ValidationLayerNames, true, true, ExtensionNames, false, true, 0);
    RequestedNamesAreDistinct();
    var l := FillInAsWritten(Layers, Unset, ValidationLayerNames, env.availableLayers, true, true);
    var e := FillInAsWritten(Extensions, Unset, ExtensionNames, env.availableExtensions, false, true);
    assert e.trace == [];
    assert l.trace + e.trace == l.trace;
  }
}
