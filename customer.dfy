/** Customers of the bookstore: a value identified by an email, resolved from an alias. */
module Customers {

  datatype Customer = Customer(email: string)

  function Christoph(): Customer { Customer("cstrobl@pivotal.io") }

  function Jeff(): Customer { Customer("jeff.yemin@mongodb.com") }

  function Oliver(): Customer { Customer("ogierke@pivotal.io") }

  /** The identity used when a request names no customer. */
  function Guest(): Customer { Customer("guest@fantasy-bookstore.io") }

  /** The three known aliases and the email each one stands for, as a table. */
  const KnownAliases: map<string, string> :=
    map["christoph" := "cstrobl@pivotal.io",
        "jeff" := "jeff.yemin@mongodb.com",
        "oliver" := "ogierke@pivotal.io"]

  /** Resolves an alias: a known alias gives its named customer, any other string is taken as the email itself. */
  function Of(alias: string): (c: Customer)
    ensures alias in KnownAliases ==> c.email == KnownAliases[alias]
    ensures alias !in KnownAliases ==> c.email == alias
  {
    if alias == "christoph" then Christoph()
    else if alias == "jeff" then Jeff()
    else if alias == "oliver" then Oliver()
    else Customer(alias)
  }

  /** No resolved email is itself an alias, so resolving a customer's email again gives the same customer. */
  lemma OfStable(alias: string)
    ensures Of(alias).email !in KnownAliases
    ensures Of(Of(alias).email) == Of(alias)
  {
  }

  /** The guest email is not an alias: resolving it yields the guest. */
  lemma OfGuest()
    ensures Guest().email !in KnownAliases
    ensures Of(Guest().email) == Guest()
  {
  }
}
