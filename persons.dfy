/**
 * The person record of the address book: a name, three contact details that
 * can each be marked private, and a set of tags. A record is an immutable
 * value once built.
 */
module Persons {

  /** A contact detail (phone, email or address) with its privacy flag. */
  datatype Contact = Contact(value: string, isPrivate: bool)

  /** A tag; two tags are the same tag when their names are equal. */
  datatype Tag = Tag(tagName: string)

  datatype Person = Person(
    name: string,
    phone: Contact,
    email: Contact,
    address: Contact,
    tags: set<Tag>)

  /** The field whose format a validation rule checks. */
  datatype Field = NameField | PhoneField | EmailField | AddressField | TagField
}
