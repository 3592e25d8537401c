/** Concrete strings checked against the e-mail constraint. */
module EmailExamples {
  import opened Wrappers
  import opened EmailValidation

  /** The addresses the controller tests send are accepted. */
  lemma ControllerTestAddresses(s: string)
    requires s in {"valid@example.com", "item1@example.com", "item2@example.com"}
    ensures IsValid(Some(s))
  {
    assert AllDomain("example.com");
    if s == "valid@example.com" {
      assert AllLocal("valid");
      assert s == "valid" + "@" + "example.com";
      ComposeAccepted("valid", "example.com");
    } else if s == "item1@example.com" {
      assert AllLocal("item1");
      assert s == "item1" + "@" + "example.com";
      ComposeAccepted("item1", "example.com");
    } else {
      assert AllLocal("item2");
      assert s == "item2" + "@" + "example.com";
      ComposeAccepted("item2", "example.com");
    }
  }

  /** The domain is not checked for structure: no dot is needed, and leading,
      trailing or repeated dots and hyphens pass; `+` and `_` pass before
      the `@`. */
  lemma LooseAddressesAccepted(s: string)
    requires s in {"a@b", "a@.example", "a@example..com", ".a.@-", "first+tag_x@example.com"}
    ensures IsValid(Some(s))
  {
    if s == "a@b" {
      assert AllLocal("a") && AllDomain("b");
      assert s == "a" + "@" + "b";
      ComposeAccepted("a", "b");
    } else if s == "a@.example" {
      assert AllLocal("a") && AllDomain(".example");
      assert s == "a" + "@" + ".example";
      ComposeAccepted("a", ".example");
    } else if s == "a@example..com" {
      assert AllLocal("a") && AllDomain("example..com");
      assert s == "a" + "@" + "example..com";
      ComposeAccepted("a", "example..com");
    } else if s == ".a.@-" {
      assert AllLocal(".a.") && AllDomain("-");
      assert s == ".a." + "@" + "-";
      ComposeAccepted(".a.", "-");
    } else {
      assert AllLocal("first+tag_x") && AllDomain("example.com");
      assert s == "first+tag_x" + "@" + "example.com";
      ComposeAccepted("first+tag_x", "example.com");
    }
  }

  /** `+` and `_` after the `@`, a second `@`, and a space are rejected. */
  lemma RejectedAddresses(s: string)
    requires s in {"first@example+tag.com", "first@example_tag.com", "a@b@c", "a b@c"}
    ensures !IsValid(Some(s))
  {
    if s == "first@example+tag.com" {
      assert !IsDomainChar("example+tag.com"[7]);
      assert s == "first" + "@" + "example+tag.com";
      ComposeAccepted("first", "example+tag.com");
    } else if s == "first@example_tag.com" {
      assert !IsDomainChar("example_tag.com"[7]);
      assert s == "first" + "@" + "example_tag.com";
      ComposeAccepted("first", "example_tag.com");
    } else if s == "a@b@c" {
      assert !IsDomainChar("b@c"[1]);
      assert s == "a" + "@" + "b@c";
      ComposeAccepted("a", "b@c");
    } else {
      assert !IsLocalChar("a b"[1]);
      assert s == "a b" + "@" + "c";
      ComposeAccepted("a b", "c");
    }
  }
}
