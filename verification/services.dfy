/** The service catalog the chatbot answers about. The catalog itself
    (`services.database.SERVICES_DB`) is data supplied from outside: an
    ordered dictionary from service identifier to a record whose two names are
    always present and whose other fields may be missing. */
module Services {
  import opened Wrappers

  /** One service record; `None` stands for a key absent from the record. */
  datatype Service = Service(
    nameFr: string,
    nameAr: string,
    description: Option<string>,
    documents: Option<seq<string>>,       // 'documents_required'
    steps: Option<seq<string>>,           // 'steps'
    paymentMethods: Option<seq<string>>,  // 'payment_methods'
    cost: Option<string>,
    duration: Option<string>,
    office: Option<string>,
    keywords: Option<seq<string>>)

  /** One `(sid, svc)` item of the catalog dictionary. */
  datatype CatalogItem = CatalogItem(id: string, svc: Service)

  /** The catalog in dictionary (insertion) order. */
  type Catalog = seq<CatalogItem>

  /** The name shown for a service: Arabic for "ar", French for any other
      language code. */
  function Label(svc: Service, lang: string): (name: string)
    ensures lang == "ar" ==> name == svc.nameAr
    ensures lang != "ar" ==> name == svc.nameFr
  {
    if lang == "ar" then svc.nameAr else svc.nameFr
  }
}
