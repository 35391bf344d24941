/**
 * `notNull` of Kotlin/Utils.kt: run `block` only when none of the
 * arguments is null. A Kotlin nullable value is an `Option`; the block is
 * a function without arguments, and a result `None` means `null`.
 */
module KotlinUtils {
  import opened Wrappers

  /** `args.filterNotNull()` */
  function FilterNotNull<T>(args: seq<Option<T>>): (r: seq<T>)
    ensures |r| <= |args|
  {
    if args == [] then []
    else FilterNotNull(args[..|args| - 1]) + (if args[|args| - 1].Some? then [args[|args| - 1].value] else [])
  }

  /** `notNull(*args) { block() }` */
  function NotNull<T, R>(args: seq<Option<T>>, block: () -> R): Option<R>
  {
    if |FilterNotNull(args)| == |args| then Some(block()) else None
  }

  /** Nothing is filtered exactly when no argument is null. */
  lemma {:induction false} FilterNotNullKeepsAll<T>(args: seq<Option<T>>)
    ensures |FilterNotNull(args)| == |args| <==> forall i | 0 <= i < |args| :: args[i].Some?
  {
    if args != [] {
      var init := args[..|args| - 1];
      FilterNotNullKeepsAll(init);
      assert forall i | 0 <= i < |init| :: init[i] == args[i];
    }
  }

  /** With every argument present the block's result is returned. */
  lemma AllPresent<T, R>(args: seq<Option<T>>, block: () -> R)
    requires forall i | 0 <= i < |args| :: args[i].Some?
    ensures NotNull(args, block) == Some(block())
  {
    FilterNotNullKeepsAll(args);
  }

  /** With a null argument the result is null, whatever the block would return. */
  lemma SomeAbsent<T, R>(args: seq<Option<T>>, block1: () -> R, block2: () -> R)
    requires exists i | 0 <= i < |args| :: args[i].None?
    ensures NotNull(args, block1) == None
    ensures NotNull(args, block1) == NotNull(args, block2)
  {
    FilterNotNullKeepsAll(args);
  }

  /** Without arguments the block runs. */
  lemma NoArguments<T, R>(block: () -> R)
    ensures NotNull<T, R>([], block) == Some(block())
  {
  }

  /** Only which arguments are null matters, not their values. */
  lemma OnlyNullnessMatters<T, R>(args1: seq<Option<T>>, args2: seq<Option<T>>, block: () -> R)
    requires |args1| == |args2|
    requires forall i | 0 <= i < |args1| :: args1[i].Some? <==> args2[i].Some?
    ensures NotNull(args1, block) == NotNull(args2, block)
  {
    FilterNotNullKeepsAll(args1);
    FilterNotNullKeepsAll(args2);
  }
}
