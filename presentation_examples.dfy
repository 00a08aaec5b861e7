/** Concrete slugs, evaluated by the verifier. */
module PresentationExamples {
  import opened Presentation

  lemma HelloLowerCase() ensures LowerCase("Hello") == "hello" {}
  lemma WorldLowerCase() ensures LowerCase("World") == "world" {}

  /** The example in the source's documentation comment. */
  lemma SlugifyDocumentedExample()
    ensures Slugify("Hello" + " " + "World" + "!") == "hello-world"
  {
    SlugifyTwoWords("Hello", "World", "!");
    HelloLowerCase();
    WorldLowerCase();
  }

  /** Trimming runs before punctuation is removed, so a slug can end in a hyphen. */
  lemma SlugifyTrailingHyphen()
    ensures Slugify("a" + " " + "" + "!") == "a-"
  {
    SlugifyTwoWords("a", "", "!");
  }

  /** A precomposed letter loses its accent. */
  lemma SlugifyStripsAccent()
    ensures Slugify("\U{E9}") == "e"
  {
    FoldedE();
    SlugFormTrimmed("e");
    SlugFormKept("e");
    HyphenateSpacesFixes("e");
    CollapseHyphensFixes("e");
    SlugifyStages("\U{E9}", "e", "e", "e", "e");
  }

  lemma FoldedE() ensures Folded("\U{E9}") == "e" {}
}
