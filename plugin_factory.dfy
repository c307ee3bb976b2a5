/**
 * PluginFactory::releaseVersion_ of cetlib/PluginFactory.cc: the release
 * string a factory reports. Loading plugins through the library manager is
 * not modelled.
 */
module Plugin {

  import opened Wrappers

  /**
   * The two members releaseVersion_ reads. The callable releaseVersionFunc_
   * is None when it is empty and Some(v) when it is set and returns v.
   */
  datatype PluginFactory = PluginFactory(releaseVersionFunc: Option<string>, releaseVersionString: string)

  /**
   * releaseVersion_: what the callable returns when there is one, otherwise
   * the stored string, or "Unknown" when that is empty.
   */
  function ReleaseVersion(f: PluginFactory): (r: string)
    ensures f.releaseVersionFunc.Some? ==> r == f.releaseVersionFunc.value
    ensures f.releaseVersionFunc.None? && f.releaseVersionString == "" ==> r == "Unknown"
    ensures f.releaseVersionFunc.None? && f.releaseVersionString != "" ==> r == f.releaseVersionString
  {
    if f.releaseVersionFunc.Some? then f.releaseVersionFunc.value
    else if f.releaseVersionString == "" then "Unknown"
    else f.releaseVersionString
  }

  /** A set callable wins over any stored string. */
  lemma CallableTakesPrecedence(v: string, s: string, s': string)
    ensures ReleaseVersion(PluginFactory(Some(v), s)) == ReleaseVersion(PluginFactory(Some(v), s'))
  {
  }

  /** The reported release is empty only when the callable itself returns an empty string. */
  lemma ReleaseVersionEmptyOnlyFromCallable(f: PluginFactory)
    ensures ReleaseVersion(f) == "" <==> f.releaseVersionFunc == Some("")
  {
  }
}
