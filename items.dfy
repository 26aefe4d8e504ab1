/**
 * Collecting the per-child conversion results of a recorder into the item list
 * of its snapshot: the children are converted in order and the first
 * conversion that fails aborts the whole list with its error, as a stream
 * mapped and collected into a list does when the mapping function throws.
 */
module ItemLists {
  import opened Wrappers
  import opened Resolutions
  import opened Tasks

  /** The items of all results in order, or the error of the first failure. */
  function Collect<T>(rs: seq<Result<Item<T>, Error>>): (r: Result<seq<Item<T>>, Error>)
    ensures r.Success? ==> |r.value| == |rs| && forall j :: 0 <= j < |rs| ==> rs[j] == Success(r.value[j])
  {
    if |rs| == 0 then Success([])
    else
      var prefix := Collect(rs[..|rs| - 1]);
      var last := rs[|rs| - 1];
      if prefix.Failure? then prefix
      else if last.Failure? then Failure(last.error)
      else Success(prefix.value + [last.value])
  }

  /** Every result among the first n succeeded. */
  ghost predicate SucceedUpTo<T>(rs: seq<Result<Item<T>, Error>>, n: nat)
    requires n <= |rs|
  {
    forall k :: 0 <= k < n ==> rs[k].Success?
  }

  /**
   * Collect succeeds exactly when every result does.
   */
  lemma {:induction false} CollectSucceeds<T>(rs: seq<Result<Item<T>, Error>>)
    ensures Collect(rs).Success? <==> SucceedUpTo(rs, |rs|)
  {
    if |rs| > 0 {
      var init := rs[..|rs| - 1];
      CollectSucceeds(init);
      assert forall k :: 0 <= k < |init| ==> init[k] == rs[k];
    }
  }

  /** When Collect fails, its error is that of the first failing result. */
  lemma {:induction false} CollectFailsFirst<T>(rs: seq<Result<Item<T>, Error>>)
    requires Collect(rs).Failure?
    ensures exists j :: 0 <= j < |rs| && rs[j] == Failure(Collect(rs).error) && SucceedUpTo(rs, j)
  {
    var init := rs[..|rs| - 1];
    assert forall k :: 0 <= k < |init| ==> init[k] == rs[k];
    if Collect(init).Failure? {
      CollectFailsFirst(init);
      var j :| 0 <= j < |init| && init[j] == Failure(Collect(init).error) && SucceedUpTo(init, j);
      assert rs[j] == init[j];
      assert SucceedUpTo(rs, j);
    } else {
      CollectSucceeds(init);
      assert SucceedUpTo(rs, |rs| - 1);
    }
  }

  /** Appending one result extends the items by its value, or fails with the first error. */
  lemma CollectAppend<T>(rs: seq<Result<Item<T>, Error>>, last: Result<Item<T>, Error>)
    ensures Collect(rs).Failure? ==> Collect(rs + [last]) == Collect(rs)
    ensures Collect(rs).Success? && last.Failure? ==> Collect(rs + [last]) == Failure(last.error)
    ensures Collect(rs).Success? && last.Success? ==>
              Collect(rs + [last]) == Success(Collect(rs).value + [last.value])
  {
    assert (rs + [last])[..|rs|] == rs;
  }

  /**
   * Replacing a successful result by another successful one replaces the
   * corresponding item and leaves a failure as it was.
   */
  lemma {:induction false} CollectReplace<T>(rs: seq<Result<Item<T>, Error>>, j: nat, x: Item<T>)
    requires j < |rs| && rs[j].Success?
    ensures Collect(rs).Success? ==> Collect(rs[j := Success(x)]) == Success(Collect(rs).value[j := x])
    ensures Collect(rs).Failure? ==> Collect(rs[j := Success(x)]) == Collect(rs)
  {
    var rs' := rs[j := Success(x)];
    var init := rs[..|rs| - 1];
    var init' := rs'[..|rs'| - 1];
    if j == |rs| - 1 {
      assert init' == init;
      if Collect(rs).Success? {
        var p := Collect(init).value;
        assert (p + [rs[j].value])[j := x] == p + [x];
      }
    } else {
      assert init' == init[j := Success(x)];
      CollectReplace(init, j, x);
      if Collect(rs).Success? {
        var p := Collect(init).value;
        assert (p + [rs[|rs| - 1].value])[j := x] == p[j := x] + [rs[|rs| - 1].value];
      }
    }
  }

  /** Collect succeeds with exactly the given items when every result is the success of its item. */
  lemma {:induction false} CollectSuccesses<T>(rs: seq<Result<Item<T>, Error>>, items: seq<Item<T>>)
    requires |rs| == |items| && forall j :: 0 <= j < |rs| ==> rs[j] == Success(items[j])
    ensures Collect(rs) == Success(items)
  {
    CollectSucceeds(rs);
    assert SucceedUpTo(rs, |rs|);
    assert Collect(rs).value == items;
  }
}
