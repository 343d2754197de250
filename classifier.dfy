/**
 * The entry classifier of the transform task: a pure test on an entry name that says
 * whether the entry is passed through untouched or handed to the modifiers.
 */
module EntryClassifier {
  import opened Paths

  const ClassSuffix: string := ".class"

  /** The engine's own runtime support package, never handed to its own modifiers. */
  const ReservedPackage: string := "com/ysj/lib/bytecodeutil/"

  /**
   * The nineteen resource-index classes of Android, in source order: "R" itself and the
   * nested classes "R$raw", "R$styleable", and so on.
   */
  const AndroidRKinds: seq<string> := [
    "", "$raw", "$styleable", "$layout", "$xml", "$attr", "$color", "$bool", "$mipmap",
    "$dimen", "$interpolator", "$plurals", "$style", "$integer", "$id", "$animator",
    "$string", "$drawable", "$anim"
  ]

  /** The file-name suffix checkAndroidRFile tests for one resource-index class. */
  function AndroidRSuffix(kind: string): (r: string)
    ensures EndsWith(r, ClassSuffix)
  {
    var r := "R" + kind + ClassSuffix;
    EndsWithAppended("R" + kind, ClassSuffix);
    r
  }

  /** checkAndroidRFile: the name ends in one of the resource-index suffixes. */
  predicate IsAndroidRFile(name: string) {
    exists k :: 0 <= k < |AndroidRKinds| && EndsWith(name, AndroidRSuffix(AndroidRKinds[k]))
  }

  /**
   * notNeedEntries: true when the entry is passed through. `notNeed` is the caller's
   * exclusion rule from the build configuration.
   */
  predicate NotNeedEntries(name: string, notNeed: string -> bool) {
    || !EndsWith(name, ClassSuffix)
    || IsAndroidRFile(name)
    || StartsWith(name, ReservedPackage)
    || notNeed(name)
  }

  /** A resource-index class is a class file: the R test only ever narrows the ".class" test. */
  lemma AndroidRFileIsClassFile(name: string)
    requires IsAndroidRFile(name)
    ensures EndsWith(name, ClassSuffix)
  {
    var k :| 0 <= k < |AndroidRKinds| && EndsWith(name, AndroidRSuffix(AndroidRKinds[k]));
    EndsWithTransitive(name, AndroidRSuffix(AndroidRKinds[k]), ClassSuffix);
  }

  /**
   * Names that are not class files, resource-index classes and the reserved package are
   * passed through whatever the caller's rule says.
   */
  lemma AlwaysPassThrough(name: string, notNeed: string -> bool)
    requires !EndsWith(name, ClassSuffix) || IsAndroidRFile(name) || StartsWith(name, ReservedPackage)
    ensures NotNeedEntries(name, notNeed)
  {
  }

  /**
   * An entry is transformed exactly when it is a class file outside the reserved package,
   * matches none of the resource-index suffixes, and the caller's rule does not exclude it.
   */
  lemma NeedsTransformIff(name: string, notNeed: string -> bool)
    ensures !NotNeedEntries(name, notNeed) <==>
      && EndsWith(name, ClassSuffix)
      && (forall k :: 0 <= k < |AndroidRKinds| ==> !EndsWith(name, AndroidRSuffix(AndroidRKinds[k])))
      && !StartsWith(name, ReservedPackage)
      && !notNeed(name)
  {
  }

  /**
   * For the remaining class files the caller's rule alone decides. Whenever the
   * built-in rules do not apply, the classification is exactly `notNeed(name)`.
   */
  lemma CallerRuleDecidesTheRest(name: string, notNeed: string -> bool)
    requires EndsWith(name, ClassSuffix) && !IsAndroidRFile(name) && !StartsWith(name, ReservedPackage)
    ensures NotNeedEntries(name, notNeed) == notNeed(name)
  {
  }

  /**
   * The "R.class" test is a plain suffix test: any class whose simple name ends in an
   * upper-case R (here `com/example/UR.class`) is passed through like a resource index.
   */
  lemma SuffixTestMatchesNamesEndingInR(notNeed: string -> bool)
    ensures IsAndroidRFile("com/example/UR.class")
    ensures NotNeedEntries("com/example/UR.class", notNeed)
  {
    assert EndsWith("com/example/UR.class", AndroidRSuffix(AndroidRKinds[0]));
  }
}
