/** The student navigation bar's link classes. */
module StudentNavbar {
  import opened Text
  import opened ActiveLink
  import opened Seqs

  // The class strings are written in short pieces so that the proofs below
  // can look at one piece at a time.
  const BaseClass: string := "px-3 py-2 " + "rounded-lg " + "text-sm " + "font-medium " + "transition-all " + "duration-200 "
  const ActiveClass: string := "bg-blue-50 text-blue-600"
  const InactiveClass: string := "text-gray-600 hover:" + ("b" + ("g-gray-50 hover:text-" + "blue-600"))

  function NavLinkClass(pathname: string, path: string): string {
    BaseClass + (if IsActive(pathname, path) then ActiveClass else InactiveClass)
  }

  /** None of the classes before the first 'b' of the inactive classes is a 'b'. */
  lemma LeadLacksB()
    ensures 'b' !in BaseClass + "text-gray-600 hover:"
  {
    assert 'b' !in "px-3 py-2 ";
    assert 'b' !in "rounded-lg ";
    assert 'b' !in "text-sm ";
    assert 'b' !in "font-medium ";
    assert 'b' !in "transition-all ";
    assert 'b' !in "duration-200 ";
    assert 'b' !in "text-gray-600 hover:";
  }

  /** The inactive classes never contain the highlight. */
  lemma InactiveLacksHighlight()
    ensures !Contains(BaseClass + InactiveClass, ActiveClass)
  {
    var t := ActiveClass;
    var rest := "g-gray-50 hover:text-";
    var far := "blue-600";
    ShortNotContains(far, t);
    NotContainsPrefixed(rest, far, t);
    assert ("b" + (rest + far))[3] != t[3];
    NotContainsHeaded('b', rest + far, t);
    LeadLacksB();
    NotContainsPrefixed(BaseClass + "text-gray-600 hover:", "b" + (rest + far), t);
    AppendAssoc(BaseClass, "text-gray-600 hover:", "b" + (rest + far));
  }

  /** A link shows the highlight classes exactly when it is active. */
  lemma HighlightIffActive(pathname: string, path: string)
    ensures Contains(NavLinkClass(pathname, path), ActiveClass) <==> IsActive(pathname, path)
  {
    if IsActive(pathname, path) {
      ContainsConcat(BaseClass, ActiveClass, "");
      assert BaseClass + ActiveClass + "" == NavLinkClass(pathname, path);
    } else {
      InactiveLacksHighlight();
    }
  }

  /** "My submissions" stays highlighted on a submission's own page. */
  lemma SubmissionsActiveOnDetail()
    ensures Contains(NavLinkClass("/submissions/x", "/submissions"), ActiveClass)
  {
    assert "/submissions/x"[..|"/submissions"|] == "/submissions";
    HighlightIffActive("/submissions/x", "/submissions");
  }
}
