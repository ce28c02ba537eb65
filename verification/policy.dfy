/**
  The replacement policy of a run.  The command line hands the scrubber an
  optional string `replace_with`: no string means delete every match, five
  reserved keywords ask for one synthetic value of a category, and any other
  string (the empty string included) is the replacement text itself.
 */
module Policy {

  datatype Option<T> = None | Some(value: T)

  /** The kinds of synthetic value the fake-data generator produces. */
  datatype Category = Name | Email | Address | PhoneNumber | CreditCardNumber

  datatype Policy = Delete | Literal(text: string) | Fake(category: Category)

  /** The five reserved `replace_with` strings, exactly as the command line spells them. */
  const Keywords: set<string> :=
    {"fake_name", "fake_email", "fake_address", "fake_phone_number", "fake_credit_card_number"}

  /** The reserved string that selects a category. */
  function Keyword(c: Category): (k: string)
    ensures k in Keywords
  {
    match c
    case Name => "fake_name"
    case Email => "fake_email"
    case Address => "fake_address"
    case PhoneNumber => "fake_phone_number"
    case CreditCardNumber => "fake_credit_card_number"
  }

  /** The policy a `replace_with` value selects, compared by exact string equality. */
  function Dispatch(replaceWith: Option<string>): (p: Policy)
    ensures p == Delete <==> replaceWith.None?
    ensures p.Fake? <==> replaceWith.Some? && replaceWith.value in Keywords
    ensures p.Fake? ==> replaceWith == Some(Keyword(p.category))
    ensures p.Literal? ==> replaceWith == Some(p.text) && p.text !in Keywords
  {
    match replaceWith
    case None => Delete
    case Some(s) =>
      if s == "fake_name" then Fake(Name)
      else if s == "fake_email" then Fake(Email)
      else if s == "fake_address" then Fake(Address)
      else if s == "fake_phone_number" then Fake(PhoneNumber)
      else if s == "fake_credit_card_number" then Fake(CreditCardNumber)
      else Literal(s)
  }

  /** How a policy is written on the command line. */
  function Spelling(p: Policy): Option<string> {
    match p
    case Delete => None
    case Literal(s) => Some(s)
    case Fake(c) => Some(Keyword(c))
  }

  /** Every `replace_with` value is the spelling of the policy it selects. */
  lemma SpellingOfDispatch(replaceWith: Option<string>)
    ensures Spelling(Dispatch(replaceWith)) == replaceWith
  {
  }

  /** Every policy except a literal that spells a keyword is selected by its spelling;
      replacing matches by the text "fake_name" itself, say, cannot be asked for. */
  lemma DispatchOfSpelling(p: Policy)
    ensures Dispatch(Spelling(p)) == p <==> !(p.Literal? && p.text in Keywords)
  {
  }
}
