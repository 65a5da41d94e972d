/** The teacher navigation bar's link classes. */
module TeacherNavbar {
  import opened Text
  import opened ActiveLink
  import opened Seqs

  // The class strings are written in short pieces so that the proofs below
  // can look at one piece at a time.
  const BaseClass: string := "px-3 py-2 " + "rounded-md " + "text-sm " + "font-medium " + "transition-colors " + "duration-200 "
  const ActiveClass: string := "bg-blue-50 text-blue-700"
  const InactiveClass: string := "text-gray-600 hover:text-" + ("b" + ("lue-600 hover:" + "bg-gray-50"))

  function GetLinkClass(pathname: string, path: string): string {
    BaseClass + (if IsActive(pathname, path) then ActiveClass else InactiveClass)
  }

  /** None of the classes before the first 'b' of the inactive classes is a 'b'. */
  lemma LeadLacksB()
    ensures 'b' !in BaseClass + "text-gray-600 hover:text-"
  {
    assert 'b' !in "px-3 py-2 ";
    assert 'b' !in "rounded-md ";
    assert 'b' !in "text-sm ";
    assert 'b' !in "font-medium ";
    assert 'b' !in "transition-colors ";
    assert 'b' !in "duration-200 ";
    assert 'b' !in "text-gray-600 hover:text-";
  }

  /** The inactive classes never contain the highlight. */
  lemma InactiveLacksHighlight()
    ensures !Contains(BaseClass + InactiveClass, ActiveClass)
  {
    var t := ActiveClass;
    var rest := "lue-600 hover:";
    var far := "bg-gray-50";
    ShortNotContains(far, t);
    NotContainsPrefixed(rest, far, t);
    assert ("b" + (rest + far))[1] != t[1];
    NotContainsHeaded('b', rest + far, t);
    LeadLacksB();
    NotContainsPrefixed(BaseClass + "text-gray-600 hover:text-", "b" + (rest + far), t);
    AppendAssoc(BaseClass, "text-gray-600 hover:text-", "b" + (rest + far));
  }

  /** A link shows the highlight classes exactly when it is active. */
  lemma HighlightIffActive(pathname: string, path: string)
    ensures Contains(GetLinkClass(pathname, path), ActiveClass) <==> IsActive(pathname, path)
  {
    if IsActive(pathname, path) {
      ContainsConcat(BaseClass, ActiveClass, "");
      assert BaseClass + ActiveClass + "" == GetLinkClass(pathname, path);
    } else {
      InactiveLacksHighlight();
    }
  }

  /** On "/create-class" the root link is plain and the create-class link highlighted. */
  lemma CreateClassHighlight()
    ensures !Contains(GetLinkClass("/create-class", "/"), ActiveClass)
    ensures Contains(GetLinkClass("/create-class", "/create-class"), ActiveClass)
  {
    HighlightIffActive("/create-class", "/");
    ActiveOnOwnPath("/create-class");
    HighlightIffActive("/create-class", "/create-class");
  }
}
