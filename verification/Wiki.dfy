/** The wiki as a tree of files (`internal/agent/validator.go`): what a path, relative to `wiki/`, means. */
module Wiki {
  import opened Text
  import opened Verdicts

  datatype Path = Path(text: string)

  /** A directory tree: the contents of its files. A missing directory is `None`. */
  type Tree = map<Path, string>

  function Files(wiki: Option<Tree>): Tree {
    match wiki
    case None => map[]
    case Some(tree) => tree
  }

  predicate IsMarkdown(path: Path) {
    HasSuffix(path.text, ".md")
  }

  /** Sidecar metadata of the store. */
  predicate InMeta(path: Path) {
    ".meta/" <= path.text || ".meta\\" <= path.text
  }

  predicate IsArchivePath(path: Path) {
    path.text == "archive" || "archive/" <= path.text
  }

  function Archived(path: Path): Path {
    Path("archive/" + path.text)
  }

  /** Where an archived page used to be. */
  function Former(path: Path): Path {
    Path(TrimPrefix(path.text, "archive/"))
  }

  predicate IsValidWikiPath(path: Path) {
    || path.text == "index.md"
    || "semantic/" <= path.text || "episodic/" <= path.text || "procedural/" <= path.text || "prospective/" <= path.text
  }

  /** The pages that the index rebuild owns. */
  predicate IsStructuralWikiIndex(path: Path) {
    || path.text == "index.md"
    || path.text == "semantic/index.md" || path.text == "episodic/index.md"
    || path.text == "procedural/index.md" || path.text == "prospective/index.md"
  }

  predicate HasFrontmatter(content: string) {
    Contains(content, "compiled_from:") && Contains(content, "last_compiled:")
  }

  predicate IsActive(path: Path) {
    !IsArchivePath(path) && !InMeta(path)
  }

  lemma FormerOfArchived(path: Path)
    ensures Former(Archived(path)) == path && IsArchivePath(Archived(path))
  {
    assert ("archive/" + path.text)[|"archive/"|..] == path.text;
  }

  /** The taxonomy, the archive and the metadata do not overlap. */
  lemma KindsApart(path: Path)
    ensures IsArchivePath(path) ==> !IsValidWikiPath(path) && !InMeta(path)
    ensures InMeta(path) ==> !IsValidWikiPath(path)
    ensures IsStructuralWikiIndex(path) ==> IsValidWikiPath(path)
  {
    if IsArchivePath(path) {
      assert path.text[0] == 'a';
    } else if InMeta(path) {
      assert path.text[0] == '.';
    }
  }
}
