/** `Image_Thumbnail`: an immutable descriptor of a derived thumbnail file.
    Its constructor is the only place its properties are written. */
module ImageThumbnail {
  import opened PhpStrings

  /** The object after construction: the two declared properties and the
      dynamic properties PHP creates on assignment to an undeclared name. */
  datatype Thumbnail = Thumbnail(path: Option<string>, url: string, dynamicProps: map<string, string>)

  /** The site's public URL of a file: the filesystem root `froot` is cut off
      by length (not checked as a prefix) and the URL root `root` put in
      front. */
  function UrlOf(path: string, root: string, froot: string): string {
    root + Substr(path, |froot|)
  }

  /** A path no longer than the filesystem root maps to the URL root itself. */
  lemma UrlOfShortPath(path: string, root: string, froot: string)
    requires |path| <= |froot|
    ensures UrlOf(path, root, froot) == root
  {
  }

  /** A path under the filesystem root maps to the URL root followed by the
      rest of the path, so the URL keeps every suffix of the path that lies
      below the root, in particular the file name. */
  lemma UrlOfUnderRoot(path: string, root: string, froot: string, tail: string)
    requires StartsWith(path, froot)
    requires EndsWith(path, tail) && |tail| <= |path| - |froot|
    ensures UrlOf(path, root, froot) == root + path[|froot|..]
    ensures EndsWith(UrlOf(path, root, froot), tail)
  {
    var u := UrlOf(path, root, froot);
    var rest := path[|froot|..];
    assert u == root + rest;
    assert rest[|rest| - |tail|..] == path[|path| - |tail|..];
    assert u[|u| - |tail|..] == rest[|rest| - |tail|..];
  }

  /** `new Image_Thumbnail($path)`. The constructor writes `$this->$path`,
      a property whose NAME is the path, so the declared `path` stays `null`
      unless the path is literally "path"; a path "url" is overwritten by the
      URL assignment that follows. PHP refuses an empty property name, hence
      the precondition. */
  function NewThumbnail(p: string, root: string, froot: string): (t: Thumbnail)
    requires p != ""
    ensures t.url == UrlOf(p, root, froot)
    ensures t.path.Some? <==> p == "path"
    ensures p !in {"path", "url"} ==> t.dynamicProps == map[p := p]
    ensures p in {"path", "url"} ==> t.dynamicProps == map[]
  {
    var url := root + Substr(p, |froot|);
    if p == "path" then Thumbnail(Some(p), url, map[])
    else if p == "url" then Thumbnail(None, url, map[])
    else Thumbnail(None, url, map[p := p])
  }

  /** For any real file name (one with a dot) the declared `path` of the
      descriptor is `null` and the path is only reachable as the dynamic
      property of the same name. */
  lemma DescriptorPathIsNull(p: string, root: string, froot: string)
    requires '.' in p
    ensures NewThumbnail(p, root, froot).path == None
    ensures p in NewThumbnail(p, root, froot).dynamicProps
  {
  }
}
